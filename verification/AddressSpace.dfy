/** The region allocator of Kernel/Memory/AddressSpace.cpp. */
module AddressSpaces {
  import opened Wrappers
  import opened Regions
  import opened RegionSearch

  class AddressSpace {
    const rangeBase: nat
    var regions: seq<Region>

    ghost predicate Valid()
      reads this
    {
      rangeBase < WORD && Sorted(regions)
    }

    constructor (rangeBase: nat)
      requires rangeBase < WORD
      ensures Valid() && regions == [] && this.rangeBase == rangeBase
    {
      this.rangeBase := rangeBase;
      regions := [];
    }

    /**
     Whether every region is clear of the request on wrapping pointers; `AvailabilityIff` says when
     that is the truth.
     */
    method IsAvailable(base: nat, length: nat) returns (available: bool)
      ensures available <==> Available(regions, base, length)
    {
      var end := Offset(base, length);
      for i := 0 to |regions|
        invariant forall j :: 0 <= j < i ==> ClearOf(regions[j], base, length)
      {
        if !(end <= regions[i].base || base >= regions[i].End()) {
          return false;
        }
      }
      return true;
    }

    /** Enters a region under its base. The regions stay disjoint exactly when it is sound and its place is free. */
    method Insert(region: Region)
      requires Valid() && region.base < WORD && region.size < WORD
      modifies this
      ensures Valid() && regions == Inserted(old(regions), region)
      ensures Disjoint(old(regions)) ==>
                (Disjoint(regions) <==> Sound(region) && Free(Erased(old(regions), region.base), region.base,
                                                              region.size))
      ensures Disjoint(old(regions)) && Sound(region) && Free(old(regions), region.base, region.size) ==>
                && Disjoint(regions) && region !in old(regions)
                && forall x :: x in regions <==> x in old(regions) || x == region
    {
      hide Inserted, Erased, Disjoint, Free, Sorted, Sound;
      InsertedSorted(regions, region);
      if Disjoint(regions) {
        InsertedDisjointIff(regions, region);
        if Sound(region) && Free(regions, region.base, region.size) {
          InsertedDisjoint(regions, region);
        }
      }
      regions := Inserted(regions, region);
    }

    method Erase(base: nat)
      requires Valid()
      modifies this
      ensures Valid() && regions == Erased(old(regions), base)
      ensures forall x :: x in regions <==> x in old(regions) && x.base != base
      ensures Disjoint(old(regions)) ==> Disjoint(regions)
    {
      ErasedSorted(regions, base);
      if Disjoint(regions) {
        ErasedDisjoint(regions, base);
      }
      regions := Erased(regions, base);
    }

    /** First fit behind a moving cursor, on wrapping pointers. */
    method FindPlace(length: nat, alignment: nat) returns (place: Option<nat>)
      requires alignment > 0
      ensures place == Found(regions, rangeBase, length, alignment)
    {
      hide AlignUp64, Available;
      var current := AlignUp64(rangeBase, alignment);
      for i := 0 to |regions|
        invariant current == if i == 0 then AlignUp64(rangeBase, alignment) else regions[i - 1].End()
        invariant forall j :: 0 <= j < i ==> !Accepts(regions, rangeBase, length, alignment, j)
      {
        current := AlignUp64(current, alignment);
        if Offset(current, length) <= regions[i].base {
          var available := IsAvailable(current, length);
          if available {
            FirstAcceptedIs(regions, rangeBase, length, alignment, i);
            return Some(current);
          }
        }
        current := regions[i].End();
      }
      current := AlignUp64(current, alignment);
      var available := IsAvailable(current, length);
      if available {
        FirstAcceptedIs(regions, rangeBase, length, alignment, |regions|);
        return Some(current);
      }
      FirstAcceptedIs(regions, rangeBase, length, alignment, |regions| + 1);
      return None;
    }

    /**
     Allocates where the search says. Over the request alone: disjoint regions stay disjoint exactly
     when it is harmless; with all regions at or above the range base the lowest fit is returned
     exactly when there is a fit, and, unless aligning wraps, disjointness is kept exactly then.
     */
    method AllocateRegion(length: nat, alignment: nat) returns (region: Option<Region>)
      requires Valid() && length < WORD && 0 < alignment < WORD
      modifies this
      ensures Valid() && region == Added(old(regions), rangeBase, AllocateOp(length, alignment))
      ensures regions == Apply(old(regions), rangeBase, AllocateOp(length, alignment))
      ensures Disjoint(old(regions)) ==>
                (Disjoint(regions) <==> Harmless(old(regions), rangeBase, AllocateOp(length, alignment)))
      ensures Disjoint(old(regions)) && length > 0 && SomeFit(old(regions), rangeBase, length, alignment) ==>
                && region.Some? && region.value.base + length < WORD
                && IsLowestFit(old(regions), SearchStart(old(regions), rangeBase, length, alignment), length, alignment,
                               region.value.base)
      ensures Disjoint(old(regions)) && length > 0 && AllAbove(old(regions), rangeBase) ==>
                && (region.Some? && region.value.base + length < WORD
                    && IsLowestFit(old(regions), rangeBase, length, alignment, region.value.base) <==>
                    SomeFit(old(regions), rangeBase, length, alignment))
                && (AlignUp(Max(rangeBase, LastEnd(old(regions))), alignment) < WORD ==>
                      (Disjoint(regions) <==> SomeFit(old(regions), rangeBase, length, alignment)))
    {
      hide Inserted, Disjoint, Sorted, IsLowestFit, Available, FirstAccepted, SearchStart, Free, SomeFit, Harmless,
           AllAbove, AlignUp, Max, LastEnd;
      if Disjoint(regions) {
        KeepsDisjointIff(regions, rangeBase, AllocateOp(length, alignment));
        if length > 0 {
          AllocationFacts(regions, rangeBase, length, alignment);
        }
      }
      var current := FindPlace(length, alignment);
      region := None;
      if current.Some? {
        region := Some(Region(0, current.value, length, 0));
        Insert(region.value);
      }
    }

    /** Places a region at a given address, rounding its size up to whole pages, if the test finds the place free. */
    method AllocateFixed(virt: nat, size: nat) returns (region: Option<Region>)
      requires Valid() && virt < WORD && size < WORD
      modifies this
      ensures Valid() && region == Added(old(regions), rangeBase, FixedOp(virt, size))
      ensures regions == Apply(old(regions), rangeBase, FixedOp(virt, size))
      ensures var length := AlignUp64(size, PAGE_SIZE);
              && (region.Some? <==> Available(old(regions), virt, length))
              && (Disjoint(old(regions)) && virt + length < WORD ==> (region.Some? <==>
                                                                      Free(old(regions), virt, length)))
              && (Disjoint(old(regions)) ==>
                    (Disjoint(regions) <==> region.None? || (length > 0 && virt + length < WORD)))
    {
      hide Inserted, Disjoint, Sorted, Available, Free, AlignUp64;
      var length := AlignUp64(size, PAGE_SIZE);
      if Disjoint(regions) {
        SafeIff(regions, rangeBase, FixedOp(virt, size));
        AvailabilityIff(regions, virt, length);
      }
      var available := IsAvailable(virt, length);
      region := None;
      if available {
        region := Some(Region(0, virt, length, 0));
        Insert(region.value);
      }
    }

    /** Records the physical base of a region, in place. */
    method SetPhysicalBase(region: Region, phys: nat)
      requires Valid() && region in regions
      modifies this
      ensures Valid() && |regions| == |old(regions)|
      ensures Disjoint(old(regions)) ==> Disjoint(regions)
      ensures forall x :: x in regions <==> (x in old(regions) && x != region) || x == region.(physicalBase := phys)
    {
      hide Position, Sorted, Disjoint;
      ghost var before := regions;
      var k := Position(regions, region.base);
      PositionOf(regions, region);
      regions := regions[k := region.(physicalBase := phys)];
      ReplacedMembers(before, k, region.(physicalBase := phys));
    }

    /**
     The first region whose range, on wrapping pointers, has the address; of disjoint regions the
     only one that contains it.
     */
    method Find(address: nat) returns (region: Option<Region>)
      ensures region.Some? ==> region.value in regions && region.value.base <= address < region.value.End()
      ensures region.None? <==> forall x :: x in regions ==> !(x.base <= address < x.End())
      ensures Disjoint(regions) && region.Some? ==>
                region.value.Contains(address) && forall x :: x in regions && x.Contains(address) ==> x == region.value
      ensures Disjoint(regions) ==> (region.None? <==> forall x :: x in regions ==> !x.Contains(address))
    {
      for i := 0 to |regions|
        invariant forall j :: 0 <= j < i ==> !(regions[j].base <= address < regions[j].End())
      {
        var end := Offset(regions[i].base, regions[i].size);
        if address >= regions[i].base && address < end {
          return Some(regions[i]);
        }
      }
      return None;
    }

    /** Performs a sequence of requests. */
    method Execute(ops: seq<Op>)
      requires Valid() && regions == [] && forall k :: 0 <= k < |ops| ==> Request(ops[k])
      modifies this
      ensures Valid() && regions == Run(rangeBase, ops)
      ensures AllHarmless(rangeBase, ops) ==> Disjoint(regions)
    {
      hide Disjoint, Sorted, Added, Apply, Harmless, Request;
      RunDisjointIff(rangeBase, ops);
      for k := 0 to |ops|
        invariant Valid() && regions == Run(rangeBase, ops[..k])
      {
        assert ops[..k + 1][..k] == ops[..k];
        PerformOne(ops[k]);
      }
      assert ops[..|ops|] == ops;
    }

    method PerformOne(op: Op)
      requires Valid() && Request(op)
      modifies this
      ensures Valid() && regions == Apply(old(regions), rangeBase, op)
    {
      match op
      case AllocateOp(length, alignment) => var r := AllocateRegion(length, alignment);
      case FixedOp(virt, size) => var r := AllocateFixed(virt, size);
      case EraseOp(base) => Erase(base);
    }
  }

  lemma AllocationFacts(rs: seq<Region>, base: nat, length: nat, alignment: nat)
    requires Disjoint(rs) && 0 < length < WORD && 0 < alignment < WORD
    ensures var c := Found(rs, base, length, alignment);
            && (SomeFit(rs, base, length, alignment) ==>
                  && c.Some? && c.value + length < WORD
                  && IsLowestFit(rs, SearchStart(rs, base, length, alignment), length, alignment, c.value))
            && (AllAbove(rs, base) ==>
                  && (c.Some? && c.value + length < WORD && IsLowestFit(rs, base, length, alignment, c.value) <==>
                      SomeFit(rs, base, length, alignment))
                  && (AlignUp(Max(base, LastEnd(rs)), alignment) < WORD ==>
                        (Disjoint(Apply(rs, base, AllocateOp(length, alignment))) <==>
                         SomeFit(rs, base, length, alignment))))
  {
    hide Found, Disjoint, SomeFit, AllAbove, IsLowestFit, SearchStart, AlignUp, Apply;
    if SomeFit(rs, base, length, alignment) {
      FitIsFound(rs, base, length, alignment);
    }
    if AllAbove(rs, base) {
      LowestIff(rs, base, length, alignment);
      if AlignUp(Max(base, LastEnd(rs)), alignment) < WORD {
        AllocationKeepsIff(rs, base, length, alignment);
      }
    }
  }
}
