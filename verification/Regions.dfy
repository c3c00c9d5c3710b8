/**
 The regions of an address space (Kernel/Memory/AddressSpace.cpp): sorted lists, disjointness, and
 what first fit means.
 */
module Regions {
  import opened Bits

  const WORD: nat := 0x1_0000_0000_0000_0000
  const PAGE_SIZE: nat := 0x1000

  /** Pointer arithmetic wraps at 64 bits. */
  function Offset(base: nat, length: nat): nat {
    (base + length) % WORD
  }

  datatype Region = Region(physicalBase: nat, base: nat, size: nat, access: nat) {
    function End(): nat {
      Offset(base, size)
    }

    predicate Contains(a: nat) {
      base <= a < base + size
    }
  }

  function AlignUp(x: nat, alignment: nat): nat
    requires alignment > 0
  {
    if x % alignment == 0 then x else x + (alignment - x % alignment)
  }

  lemma AlignUpLeast(x: nat, alignment: nat, b: nat)
    requires alignment > 0
    ensures AlignUp(x, alignment) % alignment == 0 && x <= AlignUp(x, alignment)
    ensures b % alignment == 0 && x <= b ==> AlignUp(x, alignment) <= b
  {
    var q, m := x / alignment, x % alignment;
    assert x == q * alignment + m;
    if m != 0 {
      var r := AlignUp(x, alignment);
      MulDistrib(q, 1, alignment);
      assert r == (q + 1) * alignment;
      MultipleMod(q + 1, alignment);
      if b % alignment == 0 && x <= b {
        var k := b / alignment;
        assert b == k * alignment;
        MulDistrib(k, q + 1, alignment);
        MulAtLeast(k - (q + 1), alignment);
        MulDistrib(k, q, alignment);
      }
    }
  }

  lemma MultipleMod(k: nat, d: nat)
    requires d > 0
    ensures (k * d) % d == 0
  {
    var x := k * d;
    var e := x / d - k;
    MulDistrib(x / d, k, d);
    MulAtLeast(e, d);
  }

  // ----- Sets of regions -----

  /** The region neither is empty nor wraps around. */
  predicate Sound(r: Region) {
    r.size > 0 && r.base + r.size < WORD
  }

  /** In the order of the tree: by base, which is the key. */
  ghost predicate Sorted(rs: seq<Region>) {
    && (forall i :: 0 <= i < |rs| ==> rs[i].base < WORD && rs[i].size < WORD)
    && (forall i, j :: 0 <= i < j < |rs| ==> rs[i].base < rs[j].base)
  }

  /** Sorted by base and pairwise disjoint. */
  ghost predicate Disjoint(rs: seq<Region>) {
    && (forall i :: 0 <= i < |rs| ==> Sound(rs[i]))
    && (forall i, j :: 0 <= i < j < |rs| ==> rs[i].base + rs[i].size <= rs[j].base)
  }

  /** No region overlaps the `length` addresses from `base` on. */
  ghost predicate Free(rs: seq<Region>, base: nat, length: nat) {
    forall i :: 0 <= i < |rs| ==> base + length <= rs[i].base || rs[i].base + rs[i].size <= base
  }

  /** The number of regions whose base is below `base`. */
  function Position(rs: seq<Region>, base: nat): (k: nat)
    ensures k <= |rs|
    ensures forall i :: 0 <= i < k ==> rs[i].base < base
    ensures k < |rs| ==> base <= rs[k].base
  {
    if rs == [] || base <= rs[0].base then 0 else 1 + Position(rs[1..], base)
  }

  /** Insertion into the tree: an equal key is replaced. */
  function Inserted(rs: seq<Region>, r: Region): seq<Region> {
    var k := Position(rs, r.base);
    if k < |rs| && rs[k].base == r.base then rs[k := r] else rs[..k] + [r] + rs[k..]
  }

  function Erased(rs: seq<Region>, base: nat): seq<Region> {
    var k := Position(rs, base);
    if k < |rs| && rs[k].base == base then rs[..k] + rs[k + 1..] else rs
  }

  lemma InsertedMembers(rs: seq<Region>, k: nat, r: Region)
    requires k <= |rs|
    ensures forall x :: x in rs[..k] + [r] + rs[k..] <==> x in rs || x == r
  {
    assert rs == rs[..k] + rs[k..];
  }

  /** A free place can be filled without breaking disjointness, and nothing else changes. */
  lemma InsertedDisjoint(rs: seq<Region>, r: Region)
    requires Disjoint(rs) && Sound(r) && Free(rs, r.base, r.size)
    ensures Disjoint(Inserted(rs, r))
    ensures forall x :: x in Inserted(rs, r) <==> x in rs || x == r
    ensures r !in rs
  {
    var k := Position(rs, r.base);
    var rs' := rs[..k] + [r] + rs[k..];
    assert Inserted(rs, r) == rs';
    assert Disjoint(rs') by {
      assert forall i :: 0 <= i < |rs'| ==> rs'[i] == if i < k then rs[i] else if i == k then r else rs[i - 1];
    }
    InsertedMembers(rs, k, r);
  }

  lemma ErasedDisjoint(rs: seq<Region>, base: nat)
    requires Disjoint(rs)
    ensures Disjoint(Erased(rs, base))
    ensures forall x :: x in Erased(rs, base) <==> x in rs && x.base != base
  {
    var k := Position(rs, base);
    var rs' := Erased(rs, base);
    if k < |rs| && rs[k].base == base {
      assert rs == rs[..k] + [rs[k]] + rs[k + 1..];
      forall i | 0 <= i < |rs'|
        ensures rs'[i] == if i < k then rs[i] else rs[i + 1]
      {
      }
    }
  }

  lemma DisjointSorted(rs: seq<Region>)
    requires Disjoint(rs)
    ensures Sorted(rs)
  {
  }

  lemma SplicedSorted(rs: seq<Region>, k: nat, r: Region)
    requires Sorted(rs) && r.base < WORD && r.size < WORD && k <= |rs|
    requires (k > 0 ==> rs[k - 1].base < r.base) && (k < |rs| ==> r.base < rs[k].base)
    ensures Sorted(rs[..k] + [r] + rs[k..])
  {
    var rs' := rs[..k] + [r] + rs[k..];
    assert forall i :: 0 <= i < |rs'| ==> rs'[i] == if i < k then rs[i] else if i == k then r else rs[i - 1];
  }

  lemma InsertedSorted(rs: seq<Region>, r: Region)
    requires Sorted(rs) && r.base < WORD && r.size < WORD
    ensures Sorted(Inserted(rs, r)) && r in Inserted(rs, r)
    ensures forall x :: x in rs && x.base != r.base ==> x in Inserted(rs, r)
  {
    hide Position;
    var k := Position(rs, r.base);
    if k < |rs| && rs[k].base == r.base {
      assert Inserted(rs, r)[k] == r;
      forall x | x in rs && x.base != r.base
        ensures x in Inserted(rs, r)
      {
        var i :| 0 <= i < |rs| && rs[i] == x;
        assert Inserted(rs, r)[i] == x;
      }
    } else {
      SplicedSorted(rs, k, r);
      InsertedMembers(rs, k, r);
    }
  }

  lemma CutSorted(rs: seq<Region>, k: nat)
    requires Sorted(rs) && k < |rs|
    ensures Sorted(rs[..k] + rs[k + 1..])
    ensures forall x :: x in rs[..k] + rs[k + 1..] <==> x in rs && x.base != rs[k].base
  {
    var rs' := rs[..k] + rs[k + 1..];
    assert forall i :: 0 <= i < |rs'| ==> rs'[i] == if i < k then rs[i] else rs[i + 1];
    assert rs == rs[..k] + [rs[k]] + rs[k + 1..];
  }

  lemma ErasedSorted(rs: seq<Region>, base: nat)
    requires Sorted(rs)
    ensures Sorted(Erased(rs, base))
    ensures forall x :: x in Erased(rs, base) <==> x in rs && x.base != base
  {
    hide Position;
    var k := Position(rs, base);
    if k < |rs| && rs[k].base == base {
      CutSorted(rs, k);
    }
  }

  /**
   Filling a place keeps the regions disjoint exactly when the new region is sound and nothing but
   its own key is in the way.
   */
  lemma InsertedDisjointIff(rs: seq<Region>, r: Region)
    requires Disjoint(rs) && r.base < WORD && r.size < WORD
    ensures Disjoint(Inserted(rs, r)) <==> Sound(r) && Free(Erased(rs, r.base), r.base, r.size)
  {
    hide Position;
    DisjointSorted(rs);
    InsertedSorted(rs, r);
    ErasedDisjoint(rs, r.base);
    var rs', rest := Inserted(rs, r), Erased(rs, r.base);
    if Sound(r) && Free(rest, r.base, r.size) {
      InsertedDisjoint(rest, r);
      InsertErased(rs, r);
    }
    if Disjoint(rs') {
      forall i | 0 <= i < |rest|
        ensures r.base + r.size <= rest[i].base || rest[i].base + rest[i].size <= r.base
      {
        assert rest[i] in rs && rest[i].base != r.base;
        Apart(rs', rest[i], r);
      }
      assert r in rs';
    }
  }

  lemma Apart(rs: seq<Region>, x: Region, y: Region)
    requires Disjoint(rs) && x in rs && y in rs && x != y
    ensures x.base + x.size <= y.base || y.base + y.size <= x.base
  {
  }

  /** Replacing an equal key is erasing it first. */
  lemma InsertErased(rs: seq<Region>, r: Region)
    requires Sorted(rs)
    ensures Inserted(Erased(rs, r.base), r) == Inserted(rs, r)
  {
    hide Position;
    var k := Position(rs, r.base);
    if k < |rs| && rs[k].base == r.base {
      var rest := rs[..k] + rs[k + 1..];
      assert k < |rest| ==> rest[k] == rs[k + 1];
      PositionIs(rest, r.base, k);
      assert rest[..k] == rs[..k] && rest[k..] == rs[k + 1..];
    }
  }

  lemma PositionIs(rs: seq<Region>, base: nat, k: nat)
    requires k <= |rs| && (forall i :: 0 <= i < k ==> rs[i].base < base) && (k < |rs| ==> base <= rs[k].base)
    ensures Position(rs, base) == k
  {
  }

  predicate Aligned(a: nat, alignment: nat)
    requires alignment > 0
  {
    a % alignment == 0
  }

  /** A region behind all others is appended. */
  lemma {:induction false} InsertedLast(rs: seq<Region>, r: Region)
    requires Disjoint(rs) && forall i :: 0 <= i < |rs| ==> rs[i].base + rs[i].size <= r.base
    ensures Inserted(rs, r) == rs + [r]
    ensures Free(rs, r.base, r.size)
  {
    assert Position(rs, r.base) == |rs|;
  }

  lemma PositionOf(rs: seq<Region>, r: Region)
    requires Sorted(rs) && r in rs
    ensures Position(rs, r.base) < |rs| && rs[Position(rs, r.base)] == r
  {
  }

  lemma ReplacedMembers(rs: seq<Region>, k: nat, r: Region)
    requires Sorted(rs) && k < |rs| && r.base == rs[k].base && r.size == rs[k].size
    ensures Sorted(rs[k := r]) && (Disjoint(rs) ==> Disjoint(rs[k := r]))
    ensures forall x :: x in rs[k := r] <==> (x in rs && x != rs[k]) || x == r
  {
    var rs' := rs[k := r];
    forall x
      ensures x in rs' <==> (x in rs && x != rs[k]) || x == r
    {
      if x in rs && x != rs[k] {
        var i :| 0 <= i < |rs| && rs[i] == x;
        assert rs'[i] == x;
      }
      if x == r {
        assert rs'[k] == x;
      }
    }
  }

  // ----- First fit -----

  /** `a` is the lowest aligned address at or above `from` with `length` free bytes. */
  ghost predicate IsLowestFit(rs: seq<Region>, from: nat, length: nat, alignment: nat, a: nat)
    requires alignment > 0
  {
    && from <= a && Aligned(a, alignment) && Free(rs, a, length)
    && forall b :: from <= b < a && Aligned(b, alignment) ==> !Free(rs, b, length)
  }

  /** Where the search starts: behind the first region, unless the request fits before it. */
  function SearchStart(rs: seq<Region>, base: nat, length: nat, alignment: nat): nat
    requires alignment > 0
  {
    if rs != [] && AlignUp(base, alignment) + length > rs[0].base then rs[0].base + rs[0].size else base
  }

  /** The end of the highest region. */
  function LastEnd(rs: seq<Region>): nat {
    if rs == [] then 0 else rs[|rs| - 1].base + rs[|rs| - 1].size
  }

  function Max(a: nat, b: nat): nat {
    if a < b then b else a
  }

  /**
   The allocator is promised to return the lowest fit at or above the range base. Since its
   cursor follows the first region even below that base, it keeps the promise exactly when
   no aligned hole of the requested length lies between the first region and the base.
   */
  lemma PromiseIff(rs: seq<Region>, base: nat, length: nat, alignment: nat, a: nat)
    requires Disjoint(rs) && length > 0 && alignment > 0
    requires IsLowestFit(rs, SearchStart(rs, base, length, alignment), length, alignment, a)
    ensures IsLowestFit(rs, base, length, alignment, a) <==>
            forall b :: SearchStart(rs, base, length, alignment) <= b < base && Aligned(b, alignment)
                        ==> !Free(rs, b, length)
  {
    var start := SearchStart(rs, base, length, alignment);
    forall b | base <= b < start && Aligned(b, alignment)
      ensures !Free(rs, b, length)
    {
      AlignUpLeast(base, alignment, b);
    }
  }

  ghost predicate AllAbove(rs: seq<Region>, base: nat) {
    forall i :: 0 <= i < |rs| ==> base <= rs[i].base
  }

  /** With every region at or above the range base, the promise is kept. */
  lemma PromiseAboveBase(rs: seq<Region>, base: nat, length: nat, alignment: nat, a: nat)
    requires Disjoint(rs) && length > 0 && alignment > 0 && AllAbove(rs, base)
    requires IsLowestFit(rs, SearchStart(rs, base, length, alignment), length, alignment, a)
    ensures IsLowestFit(rs, base, length, alignment, a)
  {
    PromiseIff(rs, base, length, alignment, a);
  }

  /** No aligned address from `from` up to `to` has room. */
  ghost predicate NoFit(rs: seq<Region>, from: nat, to: nat, length: nat, alignment: nat)
    requires alignment > 0
  {
    forall b :: from <= b < to && Aligned(b, alignment) ==> !Free(rs, b, length)
  }

  /** The cursor of the allocation loop before region `i`: nothing below it fits. */
  ghost predicate AtCursor(rs: seq<Region>, base: nat, length: nat, alignment: nat, i: nat, current: nat)
    requires alignment > 0 && i <= |rs|
  {
    if i == 0 then current == AlignUp(base, alignment)
    else
      && current == rs[i - 1].base + rs[i - 1].size
      && SearchStart(rs, base, length, alignment) == rs[0].base + rs[0].size <= current
      && NoFit(rs, rs[0].base + rs[0].size, current, length, alignment)
  }

  lemma CursorFree(rs: seq<Region>, i: nat, current: nat, length: nat)
    requires Disjoint(rs) && i <= |rs| && (i > 0 ==> rs[i - 1].base + rs[i - 1].size <= current)
    requires i < |rs| ==> current + length <= rs[i].base
    ensures Free(rs, current, length)
  {
  }

  lemma FitIsLowest(rs: seq<Region>, from: nat, length: nat, alignment: nat, a: nat)
    requires alignment > 0 && from <= a && Aligned(a, alignment) && Free(rs, a, length)
    requires NoFit(rs, from, a, length, alignment)
    ensures IsLowestFit(rs, from, length, alignment, a)
  {
  }

  lemma RegionEnd(rs: seq<Region>, i: nat)
    requires Disjoint(rs) && i < |rs|
    ensures rs[i].End() == rs[i].base + rs[i].size
  {
  }

  lemma AlignUpMono(x: nat, y: nat, alignment: nat)
    requires alignment > 0 && x <= y
    ensures AlignUp(x, alignment) <= AlignUp(y, alignment)
  {
    AlignUpLeast(y, alignment, 0);
    AlignUpLeast(x, alignment, AlignUp(y, alignment));
  }

  /**
   Aligning the cursor keeps it in range; nothing that fits is skipped, neither by the alignment
   nor, if the request does not fit before region `i`, by moving on behind that region.
   */
  lemma CursorBound(rs: seq<Region>, base: nat, length: nat, alignment: nat, i: nat, current: nat)
    requires Disjoint(rs) && length > 0 && alignment > 0 && i <= |rs|
    requires AtCursor(rs, base, length, alignment, i, current)
    ensures var c := AlignUp(current, alignment);
            && Aligned(c, alignment) && current <= c
            && (i == |rs| || c + length <= rs[i].base ==>
                  SearchStart(rs, base, length, alignment) <= c
                  && NoFit(rs, SearchStart(rs, base, length, alignment), c, length, alignment))
            && (i < |rs| && c + length > rs[i].base ==>
                  AtCursor(rs, base, length, alignment, i + 1, rs[i].base + rs[i].size))
  {
    var c := AlignUp(current, alignment);
    AlignUpLeast(current, alignment, 0);
    AlignUpLeast(base, alignment, 0);
    assert i == 0 ==> c == current;
    forall b: nat | Aligned(b, alignment) && (if i == 0 then base <= b else current <= b)
      ensures c <= b
    {
      AlignUpLeast(current, alignment, b);
      AlignUpLeast(base, alignment, b);
    }
    if i < |rs| && c + length > rs[i].base && i > 0 {
      forall b | rs[0].base + rs[0].size <= b < rs[i].base + rs[i].size && Aligned(b, alignment)
        ensures !Free(rs, b, length)
      {
        if b >= current {
          assert b + length > rs[i].base;
        }
      }
    }
  }
}
