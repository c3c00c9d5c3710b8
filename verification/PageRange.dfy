/** Consecutive virtual pages: distinct pages of the walk, and the effect of mapping a whole range. */
module PageRange {
  import opened Wrappers
  import opened Bits
  import opened PageEntry
  import opened PageWalk
  import opened FlatMaps

  lemma {:induction false} ShrShr(x: nat, a: nat, b: nat)
    ensures Shr(Shr(x, a), b) == Shr(x, a + b)
  {
    if a > 0 {
      ShrShr(x / 2, a - 1, b);
    }
  }

  lemma {:induction false} LowConcat(x: nat, y: nat, a: nat, b: nat)
    ensures Low(x, a + b) == Low(y, a + b) <==> Low(x, a) == Low(y, a) && Low(Shr(x, a), b) == Low(Shr(y, a), b)
  {
    if a > 0 {
      LowConcat(x / 2, y / 2, a - 1, b);
    }
  }

  /** The page number of an address. */
  function PageNumber(virt: nat): nat {
    virt / PAGE_SIZE
  }

  lemma PageNumberShr(virt: nat)
    ensures Shr(virt, 12) == PageNumber(virt)
  {
    Split(virt, 12);
    Pow2Values();
  }

  lemma IndexOfPage(virt: nat, k: nat)
    ensures Index(virt, 12 + k) == Low(Shr(PageNumber(virt), k), 9)
  {
    IndexBound(virt, 12 + k);
    ShrShr(virt, 12, k);
    PageNumberShr(virt);
  }

  lemma LowBlocks(x: nat, y: nat)
    ensures Low(x, 36) == Low(y, 36) <==>
            && Low(x, 9) == Low(y, 9) && Low(Shr(x, 9), 9) == Low(Shr(y, 9), 9)
            && Low(Shr(x, 18), 9) == Low(Shr(y, 18), 9) && Low(Shr(x, 27), 9) == Low(Shr(y, 27), 9)
    ensures Low(x, 45) == Low(y, 45) <==> Low(x, 36) == Low(y, 36) && Low(Shr(x, 36), 9) == Low(Shr(y, 36), 9)
  {
    LowConcat(x, y, 9, 9);
    LowConcat(x, y, 18, 9);
    LowConcat(x, y, 27, 9);
    LowConcat(x, y, 36, 9);
  }

  /** Addresses have the same walk exactly when the translated bits of their page numbers agree. */
  lemma SamePage(v: nat, w: nat, levels: nat)
    requires levels == 4 || levels == 5
    ensures PageOf(v, levels) == PageOf(w, levels) <==>
            Low(PageNumber(v), 9 * levels) == Low(PageNumber(w), 9 * levels)
  {
    hide Index, Low;
    SameIndices(v, w);
    LowBlocks(PageNumber(v), PageNumber(w));
    var p, q := PageOf(v, levels), PageOf(w, levels);
    if levels == 5 {
      assert p == q <==> p[0] == q[0] && p[1] == q[1] && p[2] == q[2] && p[3] == q[3] && p[4] == q[4];
    } else {
      assert p == q <==> p[0] == q[0] && p[1] == q[1] && p[2] == q[2] && p[3] == q[3];
    }
  }

  lemma SameIndices(v: nat, w: nat)
    ensures Index(v, 12) == Index(w, 12) <==> Low(PageNumber(v), 9) == Low(PageNumber(w), 9)
    ensures Index(v, 21) == Index(w, 21) <==> Low(Shr(PageNumber(v), 9), 9) == Low(Shr(PageNumber(w), 9), 9)
    ensures Index(v, 30) == Index(w, 30) <==> Low(Shr(PageNumber(v), 18), 9) == Low(Shr(PageNumber(w), 18), 9)
    ensures Index(v, 39) == Index(w, 39) <==> Low(Shr(PageNumber(v), 27), 9) == Low(Shr(PageNumber(w), 27), 9)
    ensures Index(v, 48) == Index(w, 48) <==> Low(Shr(PageNumber(v), 36), 9) == Low(Shr(PageNumber(w), 36), 9)
  {
    hide Index, Low;
    IndexOfPage(v, 0);
    IndexOfPage(w, 0);
    IndexOfPage(v, 9);
    IndexOfPage(w, 9);
    IndexOfPage(v, 18);
    IndexOfPage(w, 18);
    IndexOfPage(v, 27);
    IndexOfPage(w, 27);
    IndexOfPage(v, 36);
    IndexOfPage(w, 36);
  }

  /** The indices of a walk read as base-512 digits, the top level first. */
  function Digits(p: Path): nat {
    if p == [] then 0 else Digits(p[..|p| - 1]) * 512 + p[|p| - 1]
  }

  lemma NextDigit(x: nat, k: nat)
    ensures Shr(x, k) == Shr(x, k + 9) * 512 + Low(Shr(x, k), 9)
  {
    ShrShr(x, k, 9);
    Split(Shr(x, k), 9);
    Pow2Values();
  }

  lemma DigitsSnoc(p: Path, i: nat)
    ensures Digits(p + [i]) == Digits(p) * 512 + i
  {
    assert (p + [i])[..|p|] == p;
  }

  /** The walk of an address spells its page number; whatever lies above the translated bits is left over. */
  lemma PageDigits(virt: nat, levels: nat)
    requires levels == 4 || levels == 5
    ensures virt / 0x1000 == Digits(PageOf(virt, levels)) +
            (if levels == 5 then Shr(virt / 0x1000, 45) * 0x2000_0000_0000 else Shr(virt / 0x1000, 36) * 0x10_0000_0000)
  {
    hide Index, Low, Shr, Digits;
    var x := PageNumber(virt);
    IndexOfPage(virt, 0);
    IndexOfPage(virt, 9);
    IndexOfPage(virt, 18);
    IndexOfPage(virt, 27);
    IndexOfPage(virt, 36);
    ShrZero(x);
    NextDigit(x, 0);
    NextDigit(x, 9);
    NextDigit(x, 18);
    NextDigit(x, 27);
    NextDigit(x, 36);
    DigitsOf(Index(virt, 48), Index(virt, 39), Index(virt, 30), Index(virt, 21), Index(virt, 12));
  }

  lemma ShrZero(x: nat)
    ensures Shr(x, 0) == x
  {
  }

  lemma DigitsOf(a: nat, b: nat, c: nat, d: nat, e: nat)
    ensures Digits([b, c, d, e]) == ((b * 512 + c) * 512 + d) * 512 + e
    ensures Digits([a, b, c, d, e]) == (((a * 512 + b) * 512 + c) * 512 + d) * 512 + e
  {
    assert [] + [b] == [b] && [b] + [c] == [b, c] && [b, c] + [d] == [b, c, d] && [b, c, d] + [e] == [b, c, d, e];
    DigitsSnoc([], b);
    DigitsSnoc([b], c);
    DigitsSnoc([b, c], d);
    DigitsSnoc([b, c, d], e);
    assert [] + [a] == [a] && [a] + [b] == [a, b] && [a, b] + [c] == [a, b, c];
    assert [a, b, c] + [d] == [a, b, c, d] && [a, b, c, d] + [e] == [a, b, c, d, e];
    DigitsSnoc([], a);
    DigitsSnoc([a], b);
    DigitsSnoc([a, b], c);
    DigitsSnoc([a, b, c], d);
    DigitsSnoc([a, b, c, d], e);
  }

  /** The end of the lower half: addresses below it are private to a page map. */
  function UserEnd(levels: nat): nat {
    if levels == 5 then 0x100_0000_0000_0000 else 0x8000_0000_0000
  }

  lemma UserPow2(levels: nat)
    requires levels == 4 || levels == 5
    ensures UserEnd(levels) / PAGE_SIZE == Pow2(9 * levels - 1)
  {
    Pow2Values();
    Pow2Add(16, 16);
    Pow2Add(32, 3);
    Pow2Add(32, 12);
  }

  /** Below the end of the lower half, distinct page numbers are distinct pages. */
  lemma UserPages(v: nat, w: nat, levels: nat)
    requires levels == 4 || levels == 5
    requires v < UserEnd(levels) && w < UserEnd(levels)
    ensures PageOf(v, levels) == PageOf(w, levels) <==> PageNumber(v) == PageNumber(w)
    ensures PageOf(v, levels)[0] < KERNEL_HALF
  {
    UserPow2(levels);
    SamePage(v, w, levels);
    LowSmall(PageNumber(v), 9 * levels);
    LowSmall(PageNumber(w), 9 * levels);
    UserTopIndex(v, levels);
  }

  lemma TopIndexBound(virt: nat, k: nat)
    requires PageNumber(virt) < Pow2(k + 8)
    ensures Index(virt, 12 + k) < KERNEL_HALF
  {
    IndexOfPage(virt, k);
    var x := Shr(PageNumber(virt), k);
    Pow2Add(k, 8);
    Pow2Values();
    ShrBounds(PageNumber(virt), k, 0, KERNEL_HALF);
    LowSmall(x, 9);
  }

  lemma UserTopIndex(v: nat, levels: nat)
    requires (levels == 4 || levels == 5) && v < UserEnd(levels)
    ensures PageOf(v, levels)[0] < KERNEL_HALF
  {
    hide Index;
    UserPow2(levels);
    if levels == 5 {
      TopIndexBound(v, 36);
    } else {
      TopIndexBound(v, 27);
    }
  }

  /**
   Mapping a page-aligned range of the lower half: every address in the range translates to the
   range's physical base plus its offset, every other user address of this page map and every
   page of the others is as before.
   */
  lemma {:induction false} MapPagesLookup(f: Flat, top: nat, virt: nat, phys: nat, n: nat, flags: nat, levels: nat,
                                          top2: nat, a: nat)
    requires (levels == 4 || levels == 5) && virt % PAGE_SIZE == 0
    requires virt + n * PAGE_SIZE <= UserEnd(levels) && a < UserEnd(levels)
    ensures Lookup(MapPages(f, top, virt, phys, n, flags, levels), top2, PageOf(a, levels)) ==
            if top2 == top && virt <= a < virt + n * PAGE_SIZE
            then Some(Mapping(phys + (a - virt) / PAGE_SIZE * PAGE_SIZE, flags))
            else Lookup(f, top2, PageOf(a, levels))
  {
    hide Lookup, Update, PageOf;
    if n > 0 {
      var k := (n - 1) * PAGE_SIZE;
      MapPagesLookup(f, top, virt, phys, n - 1, flags, levels, top2, a);
      UserPages(virt + k, a, levels);
      LookupUpdate(MapPages(f, top, virt, phys, n - 1, flags, levels), top, PageOf(virt + k, levels),
                   Some(Mapping(phys + k, flags)), top2, PageOf(a, levels));
      assert PageNumber(virt + k) == PageNumber(a) <==> virt + k <= a < virt + k + PAGE_SIZE;
    }
  }

  /** No kernel-half page changes either. */
  lemma {:induction false} MapPagesKernel(f: Flat, top: nat, virt: nat, phys: nat, n: nat, flags: nat, levels: nat,
                                          top2: nat, page: Path)
    requires (levels == 4 || levels == 5) && virt + n * PAGE_SIZE <= UserEnd(levels)
    requires page != [] && page[0] >= KERNEL_HALF
    ensures Lookup(MapPages(f, top, virt, phys, n, flags, levels), top2, page) == Lookup(f, top2, page)
  {
    hide Lookup, Update, PageOf;
    if n > 0 {
      var k := (n - 1) * PAGE_SIZE;
      MapPagesKernel(f, top, virt, phys, n - 1, flags, levels, top2, page);
      UserTopIndex(virt + k, levels);
      LookupUpdate(MapPages(f, top, virt, phys, n - 1, flags, levels), top, PageOf(virt + k, levels),
                   Some(Mapping(phys + k, flags)), top2, page);
    }
  }

  lemma {:induction false} UnmapPagesLookup(f: Flat, top: nat, virt: nat, n: nat, levels: nat, top2: nat, a: nat)
    requires (levels == 4 || levels == 5) && virt % PAGE_SIZE == 0
    requires virt + n * PAGE_SIZE <= UserEnd(levels) && a < UserEnd(levels)
    ensures Lookup(UnmapPages(f, top, virt, n, levels), top2, PageOf(a, levels)) ==
            if top2 == top && virt <= a < virt + n * PAGE_SIZE then None else Lookup(f, top2, PageOf(a, levels))
  {
    hide Lookup, Update, PageOf;
    if n > 0 {
      var k := (n - 1) * PAGE_SIZE;
      UnmapPagesLookup(f, top, virt, n - 1, levels, top2, a);
      UserPages(virt + k, a, levels);
      LookupUpdate(UnmapPages(f, top, virt, n - 1, levels), top, PageOf(virt + k, levels), None, top2,
                   PageOf(a, levels));
      assert PageNumber(virt + k) == PageNumber(a) <==> virt + k <= a < virt + k + PAGE_SIZE;
    }
  }

  /** A page-aligned range of the lower half. */
  predicate UserRange(virt: nat, n: nat, levels: nat) {
    virt % PAGE_SIZE == 0 && virt + n * PAGE_SIZE <= UserEnd(levels)
  }

  ghost predicate AllUnmapped(f: Flat, top: nat, virt: nat, n: nat, levels: nat)
    requires levels == 4 || levels == 5
  {
    forall k: nat :: k < n ==> Lookup(f, top, PageOf(virt + k * PAGE_SIZE, levels)) == None
  }

  /** Every mapped page of the range has only pages with leaf tables before it. */
  ghost predicate LeavesBeforeMapped(f: Flat, r: Roles, top: nat, virt: nat, n: nat, levels: nat)
    requires levels == 4 || levels == 5
  {
    forall k: nat, j: nat :: j < k < n && Lookup(f, top, PageOf(virt + k * PAGE_SIZE, levels)) != None ==>
                               HasLeaf(r, top, PageOf(virt + j * PAGE_SIZE, levels))
  }

  /**
   What the unmapping of a user range leaves behind. With a leaf table for every page before the
   last one unmapped, and none for that one unless it is the end, the whole range ends up unmapped
   exactly when every mapped page has only pages with leaf tables before it.
   */
  lemma UnmapsAllIff(f: Flat, r: Roles, top: nat, virt: nat, n: nat, done: nat, levels: nat)
    requires (levels == 4 || levels == 5) && UserRange(virt, n, levels)
    requires forall k: nat :: k < n && Lookup(f, top, PageOf(virt + k * PAGE_SIZE, levels)) != None ==>
                                HasLeaf(r, top, PageOf(virt + k * PAGE_SIZE, levels))
    requires done <= n && forall k: nat :: k + 1 < done ==> HasLeaf(r, top, PageOf(virt + k * PAGE_SIZE, levels))
    requires done < n ==> 1 <= done && !HasLeaf(r, top, PageOf(virt + (done - 1) * PAGE_SIZE, levels))
    ensures AllUnmapped(UnmapPages(f, top, virt, done, levels), top, virt, n, levels) <==>
            LeavesBeforeMapped(f, r, top, virt, n, levels)
  {
    hide Lookup, PageOf, UnmapPages, HasLeaf, UserEnd;
    forall k: nat | k < n
      ensures Lookup(UnmapPages(f, top, virt, done, levels), top, PageOf(virt + k * PAGE_SIZE, levels)) ==
              if k < done then None else Lookup(f, top, PageOf(virt + k * PAGE_SIZE, levels))
    {
      UnmapPagesLookup(f, top, virt, done, levels, top, virt + k * PAGE_SIZE);
    }
  }

  /** Unmapping a range that was free undoes mapping it: every user address translates as before. */
  lemma UnmapUndoesMap(f: Flat, top: nat, virt: nat, phys: nat, n: nat, flags: nat, levels: nat, top2: nat, a: nat)
    requires (levels == 4 || levels == 5) && virt % PAGE_SIZE == 0
    requires virt + n * PAGE_SIZE <= UserEnd(levels) && a < UserEnd(levels)
    requires virt <= a < virt + n * PAGE_SIZE ==> Lookup(f, top, PageOf(a, levels)) == None
    ensures var g := UnmapPages(MapPages(f, top, virt, phys, n, flags, levels), top, virt, n, levels);
            Lookup(g, top2, PageOf(a, levels)) == Lookup(f, top2, PageOf(a, levels))
  {
    hide Lookup, PageOf, MapPages, UnmapPages;
    MapPagesLookup(f, top, virt, phys, n, flags, levels, top2, a);
    UnmapPagesLookup(MapPages(f, top, virt, phys, n, flags, levels), top, virt, n, levels, top2, a);
  }
}
