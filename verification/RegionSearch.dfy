/**
 The placement of regions as Kernel/Memory/AddressSpace.cpp computes it, on pointers that wrap at
 2^64: when the tests tell the truth, and exactly when a request makes regions overlap.
 */
module RegionSearch {
  import opened Wrappers
  import opened Bits
  import opened Regions

  // ----- The search as the code runs it, on wrapping pointers -----

  /** The comparison that the source makes. */
  predicate ClearOf(r: Region, base: nat, length: nat) {
    Offset(base, length) <= r.base || base >= r.End()
  }

  predicate Available(rs: seq<Region>, base: nat, length: nat) {
    forall i :: 0 <= i < |rs| ==> ClearOf(rs[i], base, length)
  }

  /** The request wraps around, some region ends behind its base, and it re-enters below all of those. */
  predicate WrapsPast(rs: seq<Region>, base: nat, length: nat) {
    && base + length >= WORD
    && (exists i :: 0 <= i < |rs| && base < rs[i].base + rs[i].size)
    && (forall i :: 0 <= i < |rs| && base < rs[i].base + rs[i].size ==> base + length - WORD <= rs[i].base)
  }

  /** The availability test tells the truth exactly when the request does not wrap past a region. */
  lemma AvailabilityIff(rs: seq<Region>, base: nat, length: nat)
    requires Disjoint(rs) && base < WORD && length < WORD
    ensures (Available(rs, base, length) <==> Free(rs, base, length)) <==> !WrapsPast(rs, base, length)
    ensures base + length < WORD ==> (Available(rs, base, length) <==> Free(rs, base, length))
  {
    hide Offset;
    OffsetIs(base, length);
    forall i | 0 <= i < |rs|
      ensures rs[i].base + rs[i].size < WORD && rs[i].End() == rs[i].base + rs[i].size
    {
      RegionEnd(rs, i);
    }
    if base + length < WORD {
      assert forall i :: 0 <= i < |rs| ==>
        (ClearOf(rs[i], base, length) <==> base + length <= rs[i].base || rs[i].base + rs[i].size <= base);
    } else {
      WrapAvailability(rs, base, length);
    }
  }

  lemma WrapAvailability(rs: seq<Region>, base: nat, length: nat)
    requires base < WORD && base + length >= WORD && Offset(base, length) == base + length - WORD
    requires forall i :: 0 <= i < |rs| ==> rs[i].base + rs[i].size < WORD && rs[i].End() == rs[i].base + rs[i].size
    ensures (Available(rs, base, length) <==> Free(rs, base, length)) <==> !WrapsPast(rs, base, length)
  {
    hide Offset;
    if i :| 0 <= i < |rs| && base < rs[i].base + rs[i].size {
      assert !(base + length <= rs[i].base || rs[i].base + rs[i].size <= base);
      assert !Free(rs, base, length);
    }
  }

  lemma OffsetIs(base: nat, length: nat)
    requires base < WORD && length < WORD
    ensures Offset(base, length) == if base + length < WORD then base + length else base + length - WORD
  {
  }

  function AlignUp64(x: nat, alignment: nat): (r: nat)
    requires alignment > 0
    ensures r < WORD
  {
    AlignUp(x, alignment) % WORD
  }

  /** Where the search looks before region `i`: at the aligned cursor, as a 64-bit number. */
  function Place(rs: seq<Region>, base: nat, alignment: nat, i: nat): (c: nat)
    requires alignment > 0 && i <= |rs|
    ensures c < WORD
  {
    AlignUp64(if i == 0 then AlignUp64(base, alignment) else rs[i - 1].End(), alignment)
  }

  /** The request is placed before region `i`: it passes the gap test, and the availability test. */
  predicate Accepts(rs: seq<Region>, base: nat, length: nat, alignment: nat, i: nat)
    requires alignment > 0 && i <= |rs|
  {
    var c := Place(rs, base, alignment, i);
    (i == |rs| || Offset(c, length) <= rs[i].base) && Available(rs, c, length)
  }

  /** The first position from `i` on at which the request is placed, or one past the last. */
  function FirstAccepted(rs: seq<Region>, base: nat, length: nat, alignment: nat, i: nat): (k: nat)
    requires alignment > 0 && i <= |rs| + 1
    ensures i <= k <= |rs| + 1
    ensures k <= |rs| ==> Accepts(rs, base, length, alignment, k)
    ensures forall j :: i <= j < k ==> !Accepts(rs, base, length, alignment, j)
    decreases |rs| + 1 - i
  {
    if i > |rs| || Accepts(rs, base, length, alignment, i) then i
    else FirstAccepted(rs, base, length, alignment, i + 1)
  }

  /** The place that the search finds, if any. */
  function Found(rs: seq<Region>, base: nat, length: nat, alignment: nat): (c: Option<nat>)
    requires alignment > 0
    ensures c.Some? ==> c.value < WORD && Available(rs, c.value, length)
  {
    var k := FirstAccepted(rs, base, length, alignment, 0);
    if k <= |rs| then Some(Place(rs, base, alignment, k)) else None
  }

  /** The cursor before region `i` without wrap-around. */
  function IdealCursor(rs: seq<Region>, base: nat, alignment: nat, i: nat): nat
    requires alignment > 0 && i <= |rs|
  {
    if i == 0 then AlignUp(base, alignment) else rs[i - 1].base + rs[i - 1].size
  }

  function IdealPlace(rs: seq<Region>, base: nat, alignment: nat, i: nat): nat
    requires alignment > 0 && i <= |rs|
  {
    AlignUp(IdealCursor(rs, base, alignment, i), alignment)
  }

  lemma IdealPlaceIs(rs: seq<Region>, base: nat, alignment: nat, i: nat)
    requires Disjoint(rs) && alignment > 0 && i <= |rs|
    ensures IdealPlace(rs, base, alignment, i) < WORD ==>
              Place(rs, base, alignment, i) == IdealPlace(rs, base, alignment, i)
  {
    hide AlignUp, Disjoint;
    AlignUpTwice(base, alignment);
    AlignUpLeast(IdealCursor(rs, base, alignment, i), alignment, 0);
    if i > 0 {
      RegionEnd(rs, i - 1);
    }
  }

  lemma AlignUpTwice(x: nat, alignment: nat)
    requires alignment > 0
    ensures AlignUp(AlignUp(x, alignment), alignment) == AlignUp(x, alignment)
  {
    AlignUpLeast(x, alignment, 0);
  }

  /** Once the gap test has passed, the availability test cannot fail, as long as the cursor itself does not wrap. */
  lemma GapTestSuffices(rs: seq<Region>, base: nat, length: nat, alignment: nat, i: nat)
    requires Disjoint(rs) && alignment > 0 && i <= |rs| && length < WORD
    requires IdealPlace(rs, base, alignment, i) < WORD
    ensures Accepts(rs, base, length, alignment, i) <==>
            i == |rs| || Offset(Place(rs, base, alignment, i), length) <= rs[i].base
  {
    hide AlignUp, Disjoint, Available, Offset, Place;
    IdealPlaceIs(rs, base, alignment, i);
    AlignUpLeast(IdealCursor(rs, base, alignment, i), alignment, 0);
    var c := Place(rs, base, alignment, i);
    if i == |rs| || Offset(c, length) <= rs[i].base {
      GapClears(rs, i, c, length);
    }
  }

  lemma GapClears(rs: seq<Region>, i: nat, c: nat, length: nat)
    requires Disjoint(rs) && i <= |rs| && (i > 0 ==> rs[i - 1].base + rs[i - 1].size <= c)
    requires i < |rs| ==> Offset(c, length) <= rs[i].base
    ensures Available(rs, c, length)
  {
    hide Offset;
    forall j | 0 <= j < |rs|
      ensures ClearOf(rs[j], c, length)
    {
      if j < i {
        RegionEnd(rs, j);
      }
    }
  }

  /** A position that is passed over leaves no fit behind, wrapped or not. */
  lemma PassedOver(rs: seq<Region>, base: nat, length: nat, alignment: nat, i: nat)
    requires Disjoint(rs) && alignment > 0 && i < |rs| && 0 < length < WORD
    requires !Accepts(rs, base, length, alignment, i)
    ensures IdealPlace(rs, base, alignment, i) + length > rs[i].base
  {
    hide Accepts, Place, IdealPlace;
    IdealPlaceIs(rs, base, alignment, i);
    if IdealPlace(rs, base, alignment, i) + length < WORD {
      GapTestSuffices(rs, base, length, alignment, i);
    }
  }

  lemma {:induction false} CursorAt(rs: seq<Region>, base: nat, length: nat, alignment: nat, i: nat)
    requires Disjoint(rs) && alignment > 0 && i <= |rs| && 0 < length < WORD
    requires forall j :: 0 <= j < i ==> !Accepts(rs, base, length, alignment, j)
    ensures AtCursor(rs, base, length, alignment, i, IdealCursor(rs, base, alignment, i))
  {
    hide Disjoint, Accepts, AtCursor;
    if i == 0 {
      CursorStart(rs, base, length, alignment);
    } else {
      CursorAt(rs, base, length, alignment, i - 1);
      CursorBound(rs, base, length, alignment, i - 1, IdealCursor(rs, base, alignment, i - 1));
      PassedOver(rs, base, length, alignment, i - 1);
    }
  }

  lemma CursorStart(rs: seq<Region>, base: nat, length: nat, alignment: nat)
    requires alignment > 0
    ensures AtCursor(rs, base, length, alignment, 0, IdealCursor(rs, base, alignment, 0))
  {
  }

  /** Where the accepted place does not wrap, it is the lowest fit from the search start on. */
  lemma FoundIsLowest(rs: seq<Region>, base: nat, length: nat, alignment: nat, k: nat)
    requires Disjoint(rs) && alignment > 0 && 0 < length < WORD
    requires k == FirstAccepted(rs, base, length, alignment, 0) <= |rs|
    requires IdealPlace(rs, base, alignment, k) + length < WORD
    ensures var c := Place(rs, base, alignment, k);
            c + length < WORD && IsLowestFit(rs, SearchStart(rs, base, length, alignment), length, alignment, c)
  {
    hide AtCursor, SearchStart, NoFit, IsLowestFit, Accepts, Available, Aligned, Free, Place, FirstAccepted;
    var c := IdealPlace(rs, base, alignment, k);
    IdealPlaceIs(rs, base, alignment, k);
    CursorAt(rs, base, length, alignment, k);
    CursorBound(rs, base, length, alignment, k, IdealCursor(rs, base, alignment, k));
    GapTestSuffices(rs, base, length, alignment, k);
    BehindPrevious(rs, base, length, alignment, k);
    CursorFree(rs, k, c, length);
    FitIsLowest(rs, SearchStart(rs, base, length, alignment), length, alignment, c);
  }

  lemma BehindPrevious(rs: seq<Region>, base: nat, length: nat, alignment: nat, k: nat)
    requires alignment > 0 && k <= |rs|
    ensures k > 0 ==> rs[k - 1].base + rs[k - 1].size <= IdealPlace(rs, base, alignment, k)
  {
    AlignUpLeast(IdealCursor(rs, base, alignment, k), alignment, 0);
  }

  lemma FirstAcceptedIs(rs: seq<Region>, base: nat, length: nat, alignment: nat, k: nat)
    requires alignment > 0 && k <= |rs| + 1
    requires forall j :: 0 <= j < k ==> !Accepts(rs, base, length, alignment, j)
    requires k <= |rs| ==> Accepts(rs, base, length, alignment, k)
    ensures FirstAccepted(rs, base, length, alignment, 0) == k
  {
  }

  // ----- When the search succeeds, over its inputs -----

  /** A place at or above `from` where the request fits without reaching 2^64. */
  ghost predicate Fits(rs: seq<Region>, from: nat, length: nat, alignment: nat, b: nat)
    requires alignment > 0
  {
    from <= b && b + length < WORD && Aligned(b, alignment) && Free(rs, b, length)
  }

  ghost predicate SomeFit(rs: seq<Region>, from: nat, length: nat, alignment: nat)
    requires alignment > 0
  {
    exists b :: Fits(rs, from, length, alignment, b)
  }

  /** Behind position 0, a fit from the search start on lies at or behind the cursor. */
  lemma FitBehindCursor(rs: seq<Region>, base: nat, length: nat, alignment: nat, b: nat, k: nat)
    requires Disjoint(rs) && 0 < length < WORD && alignment > 0 && 0 < k <= |rs|
    requires forall j :: 0 <= j < k ==> !Accepts(rs, base, length, alignment, j)
    requires Fits(rs, SearchStart(rs, base, length, alignment), length, alignment, b)
    ensures IdealPlace(rs, base, alignment, k) + length < WORD
  {
    hide Accepts, AlignUp, Free, Disjoint, SearchStart, Aligned;
    CursorAt(rs, base, length, alignment, k);
    assert IdealCursor(rs, base, alignment, k) <= b;
    FitAligned(rs, IdealCursor(rs, base, alignment, k), length, alignment, b);
  }

  lemma FitAligned(rs: seq<Region>, x: nat, length: nat, alignment: nat, b: nat)
    requires alignment > 0 && x <= b && Aligned(b, alignment)
    ensures AlignUp(x, alignment) <= b
  {
    AlignUpLeast(x, alignment, b);
  }

  /** A fit at or above the range base is a fit from the search start on. */
  lemma FitFromStart(rs: seq<Region>, base: nat, length: nat, alignment: nat, b: nat)
    requires Disjoint(rs) && 0 < length && alignment > 0 && Fits(rs, base, length, alignment, b)
    ensures Fits(rs, SearchStart(rs, base, length, alignment), length, alignment, b)
    ensures IdealPlace(rs, base, alignment, 0) <= b
  {
    hide AlignUp, Aligned;
    FitAligned(rs, base, length, alignment, b);
    AlignUpTwice(base, alignment);
  }

  /** No position at which the search can stop wraps if there is a fit at or above the range base. */
  lemma FitBounds(rs: seq<Region>, base: nat, length: nat, alignment: nat, b: nat, k: nat)
    requires Disjoint(rs) && 0 < length < WORD && alignment > 0 && k <= |rs|
    requires forall j :: 0 <= j < k ==> !Accepts(rs, base, length, alignment, j)
    requires Fits(rs, base, length, alignment, b)
    ensures IdealPlace(rs, base, alignment, k) + length < WORD
  {
    hide Accepts, AlignUp, Disjoint, IdealPlace, SearchStart, Aligned, Free;
    FitFromStart(rs, base, length, alignment, b);
    if k > 0 {
      FitBehindCursor(rs, base, length, alignment, b, k);
    }
  }

  /** Whatever fits at or above the range base is found: the result is the lowest fit from the search start on. */
  lemma FitIsFound(rs: seq<Region>, base: nat, length: nat, alignment: nat)
    requires Disjoint(rs) && 0 < length < WORD && alignment > 0 && SomeFit(rs, base, length, alignment)
    ensures var c := Found(rs, base, length, alignment);
            && c.Some? && c.value + length < WORD
            && IsLowestFit(rs, SearchStart(rs, base, length, alignment), length, alignment, c.value)
  {
    hide Accepts, AlignUp, Disjoint, Place, IdealPlace, SearchStart, IsLowestFit, Fits;
    var b :| Fits(rs, base, length, alignment, b);
    var k := FirstAccepted(rs, base, length, alignment, 0);
    if k > |rs| {
      FitBounds(rs, base, length, alignment, b, |rs|);
      GapTestSuffices(rs, base, length, alignment, |rs|);
    }
    FitBounds(rs, base, length, alignment, b, k);
    FoundIsLowest(rs, base, length, alignment, k);
  }

  /** With every region at or above the range base: the lowest free place is returned exactly when there is one. */
  lemma LowestIff(rs: seq<Region>, base: nat, length: nat, alignment: nat)
    requires Disjoint(rs) && 0 < length < WORD && alignment > 0 && AllAbove(rs, base)
    ensures var c := Found(rs, base, length, alignment);
            c.Some? && c.value + length < WORD && IsLowestFit(rs, base, length, alignment, c.value) <==>
            SomeFit(rs, base, length, alignment)
  {
    hide Found, Disjoint, SearchStart, Free, Aligned;
    var c := Found(rs, base, length, alignment);
    if SomeFit(rs, base, length, alignment) {
      FitIsFound(rs, base, length, alignment);
      PromiseAboveBase(rs, base, length, alignment, c.value);
    }
    if c.Some? && c.value + length < WORD && IsLowestFit(rs, base, length, alignment, c.value) {
      assert Fits(rs, base, length, alignment, c.value);
    }
  }

  // ----- When the search breaks disjointness, over its inputs -----

  /** The request reaches 2^64 from position `k` and re-enters at or below the region there. */
  predicate WrapGap(rs: seq<Region>, base: nat, length: nat, alignment: nat, k: nat)
    requires alignment > 0 && k <= |rs|
  {
    var p := IdealPlace(rs, base, alignment, k);
    p < WORD <= p + length && (k == |rs| || p + length - WORD <= rs[k].base)
  }

  /** Aligning the range base itself wraps to zero, where the request fits below the first region. */
  predicate ZeroStart(rs: seq<Region>, base: nat, length: nat, alignment: nat)
    requires alignment > 0
  {
    IdealPlace(rs, base, alignment, 0) >= WORD && (rs == [] || length <= rs[0].base)
  }

  /**
   The request wraps from the range base; or it neither starts again at zero nor fits anywhere,
   and wraps from behind some region.
   */
  ghost predicate Breaks(rs: seq<Region>, base: nat, length: nat, alignment: nat)
    requires alignment > 0
  {
    || WrapGap(rs, base, length, alignment, 0)
    || (&& !ZeroStart(rs, base, length, alignment)
        && !SomeFit(rs, SearchStart(rs, base, length, alignment), length, alignment)
        && exists k :: 1 <= k <= |rs| && WrapGap(rs, base, length, alignment, k))
  }

  lemma WrapGapAccepts(rs: seq<Region>, base: nat, length: nat, alignment: nat, k: nat)
    requires Disjoint(rs) && length < WORD && alignment > 0 && k <= |rs|
    requires WrapGap(rs, base, length, alignment, k)
    ensures Accepts(rs, base, length, alignment, k)
    ensures Place(rs, base, alignment, k) == IdealPlace(rs, base, alignment, k)
  {
    hide Accepts, IdealPlace, Place, Disjoint, Offset;
    IdealPlaceIs(rs, base, alignment, k);
    OffsetIs(Place(rs, base, alignment, k), length);
    GapTestSuffices(rs, base, length, alignment, k);
  }

  /** Only a wrapping gap is accepted with a place that reaches 2^64. */
  lemma WrapGapIff(rs: seq<Region>, base: nat, length: nat, alignment: nat, k: nat)
    requires Disjoint(rs) && length < WORD && alignment > 0 && k <= |rs| && base < WORD && WORD % alignment == 0
    requires Accepts(rs, base, length, alignment, k)
    ensures Place(rs, base, alignment, k) + length >= WORD <==> WrapGap(rs, base, length, alignment, k)
    ensures IdealPlace(rs, base, alignment, k) >= WORD ==> Place(rs, base, alignment, k) == 0
  {
    hide IdealPlace, Place, Disjoint, Offset, Available;
    if IdealPlace(rs, base, alignment, k) >= WORD {
      WrapsToZero(rs, base, alignment, k);
    } else {
      IdealPlaceIs(rs, base, alignment, k);
      OffsetIs(Place(rs, base, alignment, k), length);
    }
  }

  lemma WrapsToZero(rs: seq<Region>, base: nat, alignment: nat, k: nat)
    requires Disjoint(rs) && alignment > 0 && WORD % alignment == 0 && base < WORD && k <= |rs|
    requires IdealPlace(rs, base, alignment, k) >= WORD
    ensures Place(rs, base, alignment, k) == 0
  {
    hide AlignUp, Disjoint;
    if k > 0 {
      RegionEnd(rs, k - 1);
      AlignUpLeast(rs[k - 1].base + rs[k - 1].size, alignment, WORD);
    } else {
      AlignUpLeast(base, alignment, WORD);
      AlignUpTwice(base, alignment);
      AlignUpZero(alignment);
    }
  }

  /** Positions behind the first advance. */
  lemma IdealMono(rs: seq<Region>, base: nat, alignment: nat, j: nat, k: nat)
    requires Disjoint(rs) && alignment > 0 && 1 <= j <= k <= |rs|
    ensures IdealPlace(rs, base, alignment, j) <= IdealPlace(rs, base, alignment, k)
  {
    hide AlignUp;
    AlignUpMono(rs[j - 1].base + rs[j - 1].size, rs[k - 1].base + rs[k - 1].size, alignment);
  }

  lemma ZeroStartIff(rs: seq<Region>, base: nat, length: nat, alignment: nat)
    requires Disjoint(rs) && length < WORD && alignment > 0 && WORD % alignment == 0 && base < WORD
    requires IdealPlace(rs, base, alignment, 0) >= WORD
    ensures Accepts(rs, base, length, alignment, 0) <==> ZeroStart(rs, base, length, alignment)
  {
    hide IdealPlace, Place, Offset;
    WrapsToZero(rs, base, alignment, 0);
    OffsetIs(0, length);
  }

  /** The search stops at a wrapping gap exactly when `Breaks` says so. */
  lemma BreaksIff(rs: seq<Region>, base: nat, length: nat, alignment: nat, k: nat)
    requires Disjoint(rs) && 0 < length < WORD && alignment > 0 && WORD % alignment == 0 && base < WORD
    requires k == FirstAccepted(rs, base, length, alignment, 0)
    ensures Breaks(rs, base, length, alignment) <==> k <= |rs| && WrapGap(rs, base, length, alignment, k)
  {
    hide Accepts, IdealPlace, Place, Disjoint, WrapGap, ZeroStart, SomeFit, SearchStart, FirstAccepted;
    if Breaks(rs, base, length, alignment) {
      BreaksStops(rs, base, length, alignment, k);
    }
    if k <= |rs| && WrapGap(rs, base, length, alignment, k) {
      StopsBreak(rs, base, length, alignment, k);
    }
  }

  lemma BreaksStops(rs: seq<Region>, base: nat, length: nat, alignment: nat, k: nat)
    requires Disjoint(rs) && 0 < length < WORD && alignment > 0 && WORD % alignment == 0 && base < WORD
    requires k == FirstAccepted(rs, base, length, alignment, 0) && Breaks(rs, base, length, alignment)
    ensures k <= |rs| && WrapGap(rs, base, length, alignment, k)
  {
    hide Accepts, IdealPlace, Place, Disjoint, WrapGap, ZeroStart, SomeFit, SearchStart;
    if WrapGap(rs, base, length, alignment, 0) {
      WrapGapAccepts(rs, base, length, alignment, 0);
    } else {
      var m :| 1 <= m <= |rs| && WrapGap(rs, base, length, alignment, m);
      WrapGapAccepts(rs, base, length, alignment, m);
      NoFitAtStart(rs, base, length, alignment);
      assert 1 <= k <= m;
      IdealMono(rs, base, alignment, k, m);
      AcceptedWraps(rs, base, length, alignment, k, m);
    }
  }

  lemma FoundFits(rs: seq<Region>, base: nat, length: nat, alignment: nat, k: nat)
    requires Disjoint(rs) && alignment > 0 && 0 < length < WORD
    requires k == FirstAccepted(rs, base, length, alignment, 0) <= |rs|
    requires IdealPlace(rs, base, alignment, k) + length < WORD
    ensures SomeFit(rs, SearchStart(rs, base, length, alignment), length, alignment)
  {
    hide Accepts, IdealPlace, Place, Disjoint, SearchStart, FirstAccepted, Free, Aligned;
    FoundIsLowest(rs, base, length, alignment, k);
    assert Fits(rs, SearchStart(rs, base, length, alignment), length, alignment, Place(rs, base, alignment, k));
  }

  lemma AcceptedWraps(rs: seq<Region>, base: nat, length: nat, alignment: nat, k: nat, m: nat)
    requires Disjoint(rs) && 0 < length < WORD && alignment > 0 && WORD % alignment == 0 && base < WORD
    requires k == FirstAccepted(rs, base, length, alignment, 0) <= m <= |rs|
    requires WrapGap(rs, base, length, alignment, m)
    requires IdealPlace(rs, base, alignment, k) <= IdealPlace(rs, base, alignment, m)
    requires !SomeFit(rs, SearchStart(rs, base, length, alignment), length, alignment)
    ensures WrapGap(rs, base, length, alignment, k)
  {
    hide Accepts, IdealPlace, Place, Disjoint, SearchStart, FirstAccepted, Free, Aligned;
    IdealPlaceIs(rs, base, alignment, k);
    if IdealPlace(rs, base, alignment, k) + length < WORD {
      FoundFits(rs, base, length, alignment, k);
    }
    WrapGapIff(rs, base, length, alignment, k);
  }

  lemma NoFitAtStart(rs: seq<Region>, base: nat, length: nat, alignment: nat)
    requires Disjoint(rs) && 0 < length < WORD && alignment > 0 && WORD % alignment == 0 && base < WORD
    requires !WrapGap(rs, base, length, alignment, 0) && !ZeroStart(rs, base, length, alignment)
    requires !SomeFit(rs, SearchStart(rs, base, length, alignment), length, alignment)
    ensures !Accepts(rs, base, length, alignment, 0)
  {
    hide Accepts, IdealPlace, Place, Disjoint, WrapGap, ZeroStart, SearchStart, FirstAccepted, Free, Aligned;
    if Accepts(rs, base, length, alignment, 0) {
      if IdealPlace(rs, base, alignment, 0) >= WORD {
        ZeroStartIff(rs, base, length, alignment);
      } else {
        FirstAcceptedIs(rs, base, length, alignment, 0);
        WrapGapIff(rs, base, length, alignment, 0);
        IdealPlaceIs(rs, base, alignment, 0);
        FoundFits(rs, base, length, alignment, 0);
      }
    }
  }

  lemma StopsBreak(rs: seq<Region>, base: nat, length: nat, alignment: nat, k: nat)
    requires Disjoint(rs) && 0 < length < WORD && alignment > 0 && WORD % alignment == 0 && base < WORD
    requires k == FirstAccepted(rs, base, length, alignment, 0) <= |rs| && WrapGap(rs, base, length, alignment, k)
    ensures Breaks(rs, base, length, alignment)
  {
    hide Accepts, Place, Disjoint, SearchStart, Fits, IdealPlace;
    if k > 0 {
      if ZeroStart(rs, base, length, alignment) {
        ZeroStartIff(rs, base, length, alignment);
      }
      if b :| Fits(rs, SearchStart(rs, base, length, alignment), length, alignment, b) {
        FitBehindCursor(rs, base, length, alignment, b, k);
      }
    }
  }

  // ----- Operations on values, and whole runs -----

  datatype Op = AllocateOp(length: nat, alignment: nat) | FixedOp(virt: nat, size: nat) | EraseOp(base: nat)

  /** Arguments are 64-bit numbers; the alignment of zero is not covered. */
  predicate Request(op: Op) {
    match op
    case AllocateOp(length, alignment) => length < WORD && 0 < alignment < WORD
    case FixedOp(virt, size) => virt < WORD && size < WORD
    case EraseOp(base) => base < WORD
  }

  /** The place and the length of the region that a request adds, if it adds one. */
  function Added(rs: seq<Region>, rangeBase: nat, op: Op): (r: Option<Region>)
    requires Request(op)
    ensures r.Some? ==> r.value.base < WORD && r.value.size < WORD && Available(rs, r.value.base, r.value.size)
  {
    match op
    case AllocateOp(length, alignment) =>
      var c := Found(rs, rangeBase, length, alignment);
      if c.Some? then Some(Region(0, c.value, length, 0)) else None
    case FixedOp(virt, size) =>
      var length := AlignUp64(size, PAGE_SIZE);
      if Available(rs, virt, length) then Some(Region(0, virt, length, 0)) else None
    case EraseOp(_) => None
  }

  function Apply(rs: seq<Region>, rangeBase: nat, op: Op): seq<Region>
    requires Request(op)
  {
    var r := Added(rs, rangeBase, op);
    if r.Some? then Inserted(rs, r.value)
    else if op.EraseOp? then Erased(rs, op.base)
    else rs
  }

  /** The request adds nothing, or a region that is not empty and ends below 2^64. */
  predicate Safe(rs: seq<Region>, rangeBase: nat, op: Op)
    requires Request(op)
  {
    var r := Added(rs, rangeBase, op);
    r.Some? ==> r.value.size > 0 && r.value.base + r.value.size < WORD
  }

  lemma SafeIff(rs: seq<Region>, rangeBase: nat, op: Op)
    requires Disjoint(rs) && Request(op)
    ensures Disjoint(Apply(rs, rangeBase, op)) <==> Safe(rs, rangeBase, op)
    ensures var r := Added(rs, rangeBase, op);
            Safe(rs, rangeBase, op) && r.Some? ==> Free(rs, r.value.base, r.value.size)
  {
    hide Found, Inserted, Erased, Disjoint, Available;
    var r := Added(rs, rangeBase, op);
    if r.Some? {
      AvailabilityIff(rs, r.value.base, r.value.size);
      InsertedDisjointIff(rs, r.value);
      if Safe(rs, rangeBase, op) {
        InsertedDisjoint(rs, r.value);
      }
    } else if op.EraseOp? {
      ErasedDisjoint(rs, op.base);
    }
  }

  /**
   What can be said of a request before it is made. An allocation is harmless if it is not empty
   and does not break; a fixed request if the test rejects it, or it is not empty and does not
   wrap. For alignments that do not divide 2^64 the result itself is looked at.
   */
  ghost predicate Harmless(rs: seq<Region>, rangeBase: nat, op: Op)
    requires Request(op)
  {
    match op
    case AllocateOp(length, alignment) =>
      if WORD % alignment == 0 then length > 0 && !Breaks(rs, rangeBase, length, alignment)
      else Safe(rs, rangeBase, op)
    case FixedOp(virt, size) =>
      var length := AlignUp64(size, PAGE_SIZE);
      Available(rs, virt, length) ==> length > 0 && virt + length < WORD
    case EraseOp(_) => true
  }

  lemma HarmlessIff(rs: seq<Region>, rangeBase: nat, op: Op)
    requires Disjoint(rs) && Request(op) && rangeBase < WORD
    ensures Harmless(rs, rangeBase, op) <==> Safe(rs, rangeBase, op)
  {
    hide Breaks, Disjoint, AlignUp64, Available;
    if op.AllocateOp? && WORD % op.alignment == 0 {
      AllocationSafeIff(rs, rangeBase, op.length, op.alignment);
    }
  }

  lemma AllocationSafeIff(rs: seq<Region>, base: nat, length: nat, alignment: nat)
    requires Disjoint(rs) && length < WORD && 0 < alignment < WORD && WORD % alignment == 0 && base < WORD
    ensures var c := Found(rs, base, length, alignment);
            (c.Some? ==> length > 0 && c.value + length < WORD) <==> length > 0 && !Breaks(rs, base, length, alignment)
  {
    hide Breaks, Disjoint, WrapGap, IdealPlace, Place, Accepts, Available;
    var k := FirstAccepted(rs, base, length, alignment, 0);
    if length == 0 {
      EmptyIsFound(rs, base, alignment);
    } else {
      BreaksIff(rs, base, length, alignment, k);
      if k <= |rs| {
        WrapGapIff(rs, base, length, alignment, k);
      }
    }
  }

  /** A request of length zero is always granted. */
  lemma EmptyIsFound(rs: seq<Region>, base: nat, alignment: nat)
    requires Disjoint(rs) && 0 < alignment && WORD % alignment == 0 && base < WORD
    ensures FirstAccepted(rs, base, 0, alignment, 0) <= |rs|
  {
    hide IdealPlace, Place, Disjoint, Offset, FirstAccepted;
    if IdealPlace(rs, base, alignment, |rs|) < WORD {
      GapTestSuffices(rs, base, 0, alignment, |rs|);
    } else {
      WrapsToZero(rs, base, alignment, |rs|);
      OffsetIs(0, 0);
    }
    assert Accepts(rs, base, 0, alignment, |rs|);
  }

  /** A request keeps the regions disjoint exactly when it is harmless. */
  lemma KeepsDisjointIff(rs: seq<Region>, rangeBase: nat, op: Op)
    requires Disjoint(rs) && Request(op) && rangeBase < WORD
    ensures Disjoint(Apply(rs, rangeBase, op)) <==> Harmless(rs, rangeBase, op)
    ensures var r := Added(rs, rangeBase, op);
            Harmless(rs, rangeBase, op) && r.Some? ==> Free(rs, r.value.base, r.value.size)
  {
    hide Disjoint, Apply, Added, Harmless, Safe;
    SafeIff(rs, rangeBase, op);
    HarmlessIff(rs, rangeBase, op);
  }

  /**
   With every region at or above the range base, and an aligned address left behind all of them,
   an allocation keeps the regions disjoint exactly when the request fits somewhere.
   */
  lemma AllocationKeepsIff(rs: seq<Region>, base: nat, length: nat, alignment: nat)
    requires Disjoint(rs) && 0 < length < WORD && 0 < alignment < WORD && AllAbove(rs, base)
    requires AlignUp(Max(base, LastEnd(rs)), alignment) < WORD
    ensures Disjoint(Apply(rs, base, AllocateOp(length, alignment))) <==> SomeFit(rs, base, length, alignment)
  {
    hide Disjoint, Apply, Accepts, IdealPlace, Place, Max, LastEnd, AlignUp, IsLowestFit, AllAbove, SomeFit;
    SafeIff(rs, base, AllocateOp(length, alignment));
    LowestIff(rs, base, length, alignment);
    var k := FirstAccepted(rs, base, length, alignment, 0);
    InRange(rs, base, alignment, |rs|);
    GapTestSuffices(rs, base, length, alignment, |rs|);
    InRange(rs, base, alignment, k);
    IdealPlaceIs(rs, base, alignment, k);
    if IdealPlace(rs, base, alignment, k) + length < WORD {
      FoundIsLowest(rs, base, length, alignment, k);
      PromiseAboveBase(rs, base, length, alignment, Place(rs, base, alignment, k));
    }
  }

  lemma InRange(rs: seq<Region>, base: nat, alignment: nat, k: nat)
    requires Disjoint(rs) && alignment > 0 && k <= |rs|
    requires AlignUp(Max(base, LastEnd(rs)), alignment) < WORD
    ensures IdealPlace(rs, base, alignment, k) < WORD
  {
    hide AlignUp;
    AlignUpTwice(base, alignment);
    AlignUpMono(base, Max(base, LastEnd(rs)), alignment);
    if k > 0 {
      assert rs[k - 1].base + rs[k - 1].size <= LastEnd(rs);
      AlignUpMono(rs[k - 1].base + rs[k - 1].size, Max(base, LastEnd(rs)), alignment);
    }
  }

  function Run(rangeBase: nat, ops: seq<Op>): seq<Region>
    requires forall k :: 0 <= k < |ops| ==> Request(ops[k])
  {
    if ops == [] then [] else Apply(Run(rangeBase, ops[..|ops| - 1]), rangeBase, ops[|ops| - 1])
  }

  /** Disjoint after the run and after every shorter part of it. */
  ghost predicate AlwaysDisjoint(rangeBase: nat, ops: seq<Op>)
    requires forall k :: 0 <= k < |ops| ==> Request(ops[k])
  {
    Disjoint(Run(rangeBase, ops)) && (ops != [] ==> AlwaysDisjoint(rangeBase, ops[..|ops| - 1]))
  }

  /** Every request of the run is harmless where it is made. */
  ghost predicate AllHarmless(rangeBase: nat, ops: seq<Op>)
    requires forall k :: 0 <= k < |ops| ==> Request(ops[k])
  {
    ops != [] ==>
      var before := ops[..|ops| - 1];
      AllHarmless(rangeBase, before) && Harmless(Run(rangeBase, before), rangeBase, ops[|ops| - 1])
  }

  /** From the empty space, the regions are disjoint all along a run exactly when every request of it is harmless. */
  lemma {:induction false} RunDisjointIff(rangeBase: nat, ops: seq<Op>)
    requires rangeBase < WORD && forall k :: 0 <= k < |ops| ==> Request(ops[k])
    ensures AlwaysDisjoint(rangeBase, ops) <==> AllHarmless(rangeBase, ops)
  {
    hide Harmless, Apply, Disjoint;
    if ops == [] {
      EmptyDisjoint();
    } else {
      var before := ops[..|ops| - 1];
      RunDisjointIff(rangeBase, before);
      if Disjoint(Run(rangeBase, before)) {
        KeepsDisjointIff(Run(rangeBase, before), rangeBase, ops[|ops| - 1]);
      }
      assert AlwaysDisjoint(rangeBase, before) ==> Disjoint(Run(rangeBase, before));
    }
  }

  lemma EmptyDisjoint()
    ensures Disjoint([])
  {
  }

  // ----- Requests that wrap -----

  /**
   A fixed request just below a region, as long as the rest of the address space, passes all
   tests: the region list then holds two regions with an address in common.
   */
  lemma WrapExample(rangeBase: nat, at: nat)
    requires 0x1000 < at < WORD - 0x1000 && at % PAGE_SIZE == 0
    ensures var ops := [FixedOp(at, 0x1000), FixedOp(at - 0x1000, WORD - (at - 0x1000))];
            var rs := Run(rangeBase, ops);
            |rs| == 2 && rs[0] != rs[1] && rs[0].Contains(at) && rs[1].Contains(at) && !Disjoint(rs)
  {
    hide Apply, Run, Disjoint;
    var first, second := FixedOp(at, 0x1000), FixedOp(at - 0x1000, WORD - (at - 0x1000));
    var r, w := Region(0, at, 0x1000, 0), Region(0, at - 0x1000, WORD - (at - 0x1000), 0);
    RunTwo(rangeBase, first, second);
    OnlyFixed(rangeBase, at, 0x1000);
    WrapAdds(rangeBase, at, r, w);
    Overlap(w, r);
  }

  /**
   The same through an allocation: with a region one page behind the range base, a request as long
   as the rest of the address space is placed at the range base, over that region.
   */
  lemma WrapAllocationExample(rangeBase: nat)
    requires 0x1000 < rangeBase < WORD - 0x2000 && rangeBase % PAGE_SIZE == 0
    ensures var ops := [FixedOp(rangeBase + 0x1000, 0x1000), AllocateOp(WORD - rangeBase, 0x1000)];
            var rs := Run(rangeBase, ops);
            && |rs| == 2 && rs[0] != rs[1] && !Disjoint(rs)
            && rs[0].Contains(rangeBase + 0x1000) && rs[1].Contains(rangeBase + 0x1000)
  {
    hide Apply, Run, Disjoint;
    var at := rangeBase + 0x1000;
    var first, second := FixedOp(at, 0x1000), AllocateOp(WORD - rangeBase, 0x1000);
    var r, w := Region(0, at, 0x1000, 0), Region(0, rangeBase, WORD - rangeBase, 0);
    RunTwo(rangeBase, first, second);
    OnlyFixed(rangeBase, at, 0x1000);
    WrapAllocates(rangeBase, r, w);
    Overlap(w, r);
  }

  lemma WrapAllocates(rangeBase: nat, r: Region, w: Region)
    requires 0x1000 < rangeBase < WORD - 0x2000 && rangeBase % PAGE_SIZE == 0
    requires r == Region(0, rangeBase + 0x1000, 0x1000, 0) && w == Region(0, rangeBase, WORD - rangeBase, 0)
    ensures Apply([r], rangeBase, AllocateOp(w.size, 0x1000)) == [w, r]
  {
    hide AlignUp64, Offset, Position, FirstAccepted;
    AlignedStays(rangeBase, 0x1000);
    OffsetIs(w.base, w.size);
    assert Place([r], rangeBase, 0x1000, 0) == rangeBase;
    assert Available([r], w.base, w.size);
    assert Accepts([r], rangeBase, w.size, 0x1000, 0);
    FirstAcceptedIs([r], rangeBase, w.size, 0x1000, 0);
    PositionIs([r], w.base, 0);
    assert Inserted([r], w) == [w, r];
  }

  /** A region below the range base makes the allocator hand out memory below it. */
  lemma BelowBaseExample()
    ensures var rs := [Region(0, 0x1000, 0x1000, 0)];
            && Disjoint(rs) && Found(rs, 0x10000, 0x1000, 0x1000) == Some(0x2000)
            && IsLowestFit(rs, SearchStart(rs, 0x10000, 0x1000, 0x1000), 0x1000, 0x1000, 0x2000)
            && !IsLowestFit(rs, 0x10000, 0x1000, 0x1000, 0x2000)
  {
    hide FirstAccepted;
    var rs := [Region(0, 0x1000, 0x1000, 0)];
    assert !Accepts(rs, 0x10000, 0x1000, 0x1000, 0);
    assert Accepts(rs, 0x10000, 0x1000, 0x1000, 1);
    FirstAcceptedIs(rs, 0x10000, 0x1000, 0x1000, 1);
  }

  // ----- Overlap, apart from soundness -----

  /** The two regions have an address in common. */
  predicate Meet(x: Region, y: Region) {
    x.base < x.base + x.size && y.base < y.base + y.size && x.base < y.base + y.size && y.base < x.base + x.size
  }

  predicate Overlapping(rs: seq<Region>) {
    exists i, j :: 0 <= i < j < |rs| && Meet(rs[i], rs[j])
  }

  /** A region added to disjoint ones makes two overlap exactly when it meets one with another base. */
  lemma InsertedOverlapIff(rs: seq<Region>, r: Region)
    requires Disjoint(rs) && r.base < WORD && r.size < WORD
    ensures Overlapping(Inserted(rs, r)) <==> exists x :: x in Erased(rs, r.base) && Meet(x, r)
  {
    hide Position, Erased, Inserted, Disjoint, Sorted, Overlapping, Meet;
    DisjointSorted(rs);
    InsertedSorted(rs, r);
    ErasedSorted(rs, r.base);
    InsertedFrom(rs, r);
    var rs' := Inserted(rs, r);
    if x :| x in Erased(rs, r.base) && Meet(x, r) {
      TwoMeet(rs', x, r);
    }
    if Overlapping(rs') {
      var x, y := MeetingPair(rs');
      OneIsNew(rs, r, x, y);
    }
  }

  lemma TwoMeet(rs: seq<Region>, x: Region, y: Region)
    requires x in rs && y in rs && x.base != y.base && Meet(x, y)
    ensures Overlapping(rs)
  {
    var i :| 0 <= i < |rs| && rs[i] == x;
    var j :| 0 <= j < |rs| && rs[j] == y;
    assert Meet(rs[if i < j then i else j], rs[if i < j then j else i]);
  }

  lemma MeetingPair(rs: seq<Region>) returns (x: Region, y: Region)
    requires Sorted(rs) && Overlapping(rs)
    ensures x in rs && y in rs && x.base != y.base && Meet(x, y)
  {
    hide Meet;
    var i, j :| 0 <= i < j < |rs| && Meet(rs[i], rs[j]);
    x, y := rs[i], rs[j];
  }

  lemma OneIsNew(rs: seq<Region>, r: Region, x: Region, y: Region)
    requires Disjoint(rs) && Meet(x, y) && x.base != y.base
    requires (x == r || x in Erased(rs, r.base)) && (y == r || y in Erased(rs, r.base))
    requires forall z :: z in Erased(rs, r.base) <==> z in rs && z.base != r.base
    ensures exists z :: z in Erased(rs, r.base) && Meet(z, r)
  {
    hide Erased, Position;
    if x != r && y != r {
      Apart(rs, x, y);
    }
  }

  lemma InsertedFrom(rs: seq<Region>, r: Region)
    requires Disjoint(rs)
    ensures forall x :: x in Inserted(rs, r) ==> x == r || x in Erased(rs, r.base)
  {
    hide Position;
    DisjointSorted(rs);
    ErasedSorted(rs, r.base);
    var k := Position(rs, r.base);
    forall x | x in Inserted(rs, r)
      ensures x == r || (x in rs && x.base != r.base)
    {
    }
  }

  /**
   A fixed request makes two regions overlap exactly when the test passes and the request wraps past
   another region.
   */
  lemma FixedOverlapIff(rs: seq<Region>, rangeBase: nat, virt: nat, size: nat)
    requires Disjoint(rs) && virt < WORD && size < WORD
    ensures var length := AlignUp64(size, PAGE_SIZE);
            Overlapping(Apply(rs, rangeBase, FixedOp(virt, size))) <==>
            Available(rs, virt, length) && WrapsPast(Erased(rs, virt), virt, length)
  {
    hide AlignUp64, Inserted, Erased, Available;
    var length := AlignUp64(size, PAGE_SIZE);
    if Available(rs, virt, length) {
      InsertedOverlapIff(rs, Region(0, virt, length, 0));
      ErasedDisjoint(rs, virt);
      MeetIff(rs, Erased(rs, virt), Region(0, virt, length, 0));
    }
  }

  lemma MeetIff(rs: seq<Region>, rest: seq<Region>, r: Region)
    requires Disjoint(rs) && Disjoint(rest) && (forall x :: x in rest ==> x in rs)
    requires r.base < WORD && r.size < WORD && Available(rs, r.base, r.size)
    ensures (exists x :: x in rest && Meet(x, r)) <==> WrapsPast(rest, r.base, r.size)
  {
    hide Offset;
    OffsetIs(r.base, r.size);
    forall x | x in rest
      ensures x.base + x.size < WORD && x.size > 0
      ensures ClearOf(x, r.base, r.size) && x.End() == x.base + x.size
    {
      var i :| 0 <= i < |rs| && rs[i] == x;
      RegionEnd(rs, i);
    }
    if WrapsPast(rest, r.base, r.size) {
      var i :| 0 <= i < |rest| && r.base < rest[i].base + rest[i].size;
      assert rest[i] in rest && Meet(rest[i], r);
    }
    if x :| x in rest && Meet(x, r) {
      var i :| 0 <= i < |rest| && rest[i] == x;
      assert r.base < rest[i].base + rest[i].size;
    }
  }

  lemma Overlap(w: Region, r: Region)
    requires w.base + w.size > r.base
    ensures !Disjoint([w, r])
  {
    var rs := [w, r];
    assert rs[0] == w && rs[1] == r;
  }

  lemma AlignedStays(x: nat, alignment: nat)
    requires alignment > 0 && x % alignment == 0 && x < WORD
    ensures AlignUp64(x, alignment) == x
  {
  }

  lemma RunTwo(rangeBase: nat, first: Op, second: Op)
    requires Request(first) && Request(second)
    ensures Run(rangeBase, [first, second]) == Apply(Apply([], rangeBase, first), rangeBase, second)
  {
    hide Apply, Request;
    assert [first, second][..1] == [first] && [first][..0] == [];
    assert Run(rangeBase, [first]) == Apply(Run(rangeBase, []), rangeBase, first);
  }

  lemma OnlyFixed(rangeBase: nat, at: nat, size: nat)
    requires at < WORD && size < WORD && size % PAGE_SIZE == 0
    ensures Apply([], rangeBase, FixedOp(at, size)) == [Region(0, at, size, 0)]
  {
    hide AlignUp64, Offset;
    AlignedStays(size, PAGE_SIZE);
  }

  lemma WrapAdds(rangeBase: nat, at: nat, r: Region, w: Region)
    requires 0x1000 < at < WORD - 0x1000 && at % PAGE_SIZE == 0
    requires r == Region(0, at, 0x1000, 0) && w == Region(0, at - 0x1000, WORD - (at - 0x1000), 0)
    ensures Apply([r], rangeBase, FixedOp(w.base, w.size)) == [w, r]
  {
    hide AlignUp64, Offset, Position;
    AlignedStays(w.size, PAGE_SIZE);
    OffsetIs(w.base, w.size);
    assert Available([r], w.base, w.size);
    PositionIs([r], w.base, 0);
    assert Inserted([r], w) == [w, r];
  }

  /** With room behind the last region and the range base, the search succeeds. */
  lemma RoomFinds(rs: seq<Region>, base: nat, length: nat, alignment: nat)
    requires Disjoint(rs) && 0 < length < WORD && 0 < alignment
    requires AlignUp(Max(base, LastEnd(rs)), alignment) + length < WORD
    ensures var c := Found(rs, base, length, alignment);
            && c.Some? && c.value + length < WORD
            && IsLowestFit(rs, SearchStart(rs, base, length, alignment), length, alignment, c.value)
  {
    hide Found, IsLowestFit, AlignUp, SearchStart;
    var b := AlignUp(Max(base, LastEnd(rs)), alignment);
    AlignUpLeast(Max(base, LastEnd(rs)), alignment, 0);
    assert Fits(rs, base, length, alignment, b);
    FitIsFound(rs, base, length, alignment);
  }

  lemma AlignUpZero(alignment: nat)
    requires alignment > 0
    ensures AlignUp(0, alignment) == 0
  {
  }
}
