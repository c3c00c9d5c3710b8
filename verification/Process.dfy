/**
 Demand paging (Kernel/Memory/MM.cpp, `HandlePageFault`) and the address-space copy of
 `Process::Fork` (Kernel/Scheduler/Process.cpp): regions, page maps and physical memory together.
 */
module Processes {
  import opened Wrappers
  import opened Bits
  import opened PageEntry
  import opened PageWalk
  import opened FlatMaps
  import opened PageMaps
  import opened PageRange
  import Regions
  import AddressSpaces
  type Region = Regions.Region

  type Byte = x: nat | x < 256

  // ----- Physical memory -----

  type Bytes = map<nat, Byte>

  /** Frames that hold nothing read as zero. */
  function ReadByte(bytes: Bytes, a: nat): Byte {
    if a in bytes then bytes[a] else 0
  }

  function Block(phys: nat, n: nat): set<nat> {
    set k | 0 <= k < n :: phys + k * PAGE_SIZE
  }

  predicate FreshBlock(used: set<nat>, phys: nat, n: nat) {
    phys != 0 && Block(phys, n) !! used && forall k :: 0 <= k < n ==> IsFrame(phys + k * PAGE_SIZE)
  }

  predicate InBlock(a: nat, phys: nat, n: nat) {
    phys <= a < phys + n * PAGE_SIZE
  }

  /** Outside the block of `n` frames nothing changed. */
  ghost predicate OnlyBlock(before: Bytes, after: Bytes, phys: nat, n: nat) {
    forall a: nat {:trigger ReadByte(after, a)} :: !InBlock(a, phys, n) ==> ReadByte(after, a) == ReadByte(before, a)
  }

  /** `size` bytes from `source` on appear at `destination`; outside the destination block nothing changed. */
  ghost predicate CopiedTo(before: Bytes, after: Bytes, source: nat, destination: nat, size: nat, n: nat) {
    && (forall a: nat {:trigger ReadByte(after, a)} :: destination <= a < destination + size ==>
          ReadByte(after, a) == ReadByte(before, source + (a - destination)))
    && OnlyBlock(before, after, destination, n)
  }

  lemma FrameInBlock(phys: nat, n: nat, off: nat)
    requires off < n * PAGE_SIZE
    ensures phys + off / PAGE_SIZE * PAGE_SIZE in Block(phys, n)
  {
    assert off / PAGE_SIZE < n;
  }

  lemma BlockOfByte(phys: nat, n: nat, frame: nat, off: nat)
    requires phys % PAGE_SIZE == 0 && frame % PAGE_SIZE == 0 && off < PAGE_SIZE
    requires InBlock(frame + off, phys, n)
    ensures frame in Block(phys, n)
  {
    FrameInBlock(phys, n, frame + off - phys);
  }

  /** A byte of a frame in use lies outside every fresh block. */
  lemma ByteApart(used: set<nat>, phys: nat, n: nat, frame: nat, off: nat)
    requires FreshBlock(used, phys, n) && frame in used && frame % PAGE_SIZE == 0 && off < PAGE_SIZE
    ensures !InBlock(frame + off, phys, n)
  {
    if InBlock(frame + off, phys, n) {
      assert IsFrame(phys + 0 * PAGE_SIZE);
      BlockOfByte(phys, n, frame, off);
    }
  }

  lemma BytesApart(used: set<nat>, phys: nat, n: nat, source: nat, size: nat)
    requires FreshBlock(used, phys, n) && source % PAGE_SIZE == 0 && Block(source, PageCount(size)) <= used
    ensures forall a: nat :: source <= a < source + size ==> !InBlock(a, phys, n)
  {
    forall a: nat | source <= a < source + size
      ensures !InBlock(a, phys, n)
    {
      var k := a - source;
      FrameInBlock(source, PageCount(size), k);
      ByteApart(used, phys, n, source + k / PAGE_SIZE * PAGE_SIZE, k % PAGE_SIZE);
    }
  }

  lemma ClearThenCopy(before: Bytes, cleared: Bytes, after: Bytes, source: nat, phys: nat, size: nat)
    requires forall a: nat :: source <= a < source + size ==> !InBlock(a, phys, PageCount(size))
    requires forall a: nat {:trigger ReadByte(cleared, a)} ::
               !InBlock(a, phys, PageCount(size)) ==> ReadByte(cleared, a) == ReadByte(before, a)
    requires forall a: nat {:trigger ReadByte(after, a)} :: ReadByte(after, a) ==
               if phys <= a < phys + size then ReadByte(cleared, source + (a - phys)) else ReadByte(cleared, a)
    ensures CopiedTo(before, after, source, phys, size, PageCount(size))
  {
    forall a: nat | phys <= a < phys + size
      ensures ReadByte(after, a) == ReadByte(before, source + (a - phys))
    {
      assert !InBlock(source + (a - phys), phys, PageCount(size));
    }
  }

  class PhysicalMemory {
    var bytes: Bytes
    var used: set<nat>

    /** Frames that are not in use hold zeros once they are handed out. */
    constructor (used: set<nat>)
      ensures this.used == used && bytes == map[]
    {
      this.used := used;
      bytes := map[];
    }

    /** Some block of unused frames, cleared, or null: any choice the allocator can make. */
    method CallocatePages(n: nat) returns (phys: nat)
      modifies this
      ensures phys == 0 ==> used == old(used) && bytes == old(bytes)
      ensures phys != 0 ==>
                && FreshBlock(old(used), phys, n) && used == old(used) + Block(phys, n)
                && forall a: nat {:trigger ReadByte(bytes, a)} :: ReadByte(bytes, a) == if InBlock(a, phys, n) then 0
                  else ReadByte(old(bytes), a)
    {
      phys := *;
      if !FreshBlock(used, phys, n) {
        return 0;
      }
      used := used + Block(phys, n);
      bytes := map a: nat | a in bytes && !InBlock(a, phys, n) :: bytes[a];
    }

    /** `Memory::Copy` through the direct map of physical memory. */
    method Copy(destination: nat, source: nat, size: nat)
      modifies this`bytes
      ensures forall a: nat {:trigger ReadByte(bytes, a)} :: ReadByte(bytes, a) ==
                if destination <= a < destination + size then ReadByte(old(bytes), source + (a - destination))
                else ReadByte(old(bytes), a)
    {
      var before: Bytes := bytes;
      var after: Bytes := bytes;
      for i := 0 to size
        invariant forall a: nat :: destination <= a < destination + i ==>
                    a in after && after[a] == ReadByte(before, source + (a - destination))
        invariant forall a: nat :: !(destination <= a < destination + i) ==> ReadByte(after, a) == ReadByte(before, a)
      {
        after := after[destination + i := ReadByte(before, source + i)];
      }
      bytes := after;
    }

    /** A fresh block that starts with a copy of `size` bytes, or null. */
    method Clone(source: nat, size: nat) returns (phys: nat)
      modifies this
      ensures phys == 0 ==> used == old(used) && bytes == old(bytes)
      ensures phys != 0 ==>
                && FreshBlock(old(used), phys, PageCount(size)) && used == old(used) + Block(phys, PageCount(size))
                && OnlyBlock(old(bytes), bytes, phys, PageCount(size))
                && (source % PAGE_SIZE == 0 && Block(source, PageCount(size)) <= old(used) ==>
                      CopiedTo(old(bytes), bytes, source, phys, size, PageCount(size)))
    {
      phys := CallocatePages(PageCount(size));
      if phys != 0 {
        ghost var cleared := bytes;
        Copy(phys, source, size);
        if source % PAGE_SIZE == 0 && Block(source, PageCount(size)) <= old(used) {
          BytesApart(old(used), phys, PageCount(size), source, size);
          ClearThenCopy(old(bytes), cleared, bytes, source, phys, size);
        }
      }
    }
  }

  // ----- Virtual memory -----

  /** The region's pages are mapped, in order, to the frames from its physical base on. */
  ghost predicate Backed(f: Flat, levels: nat, top: nat, r: Region)
    requires levels == 4 || levels == 5
  {
    forall a: nat :: r.Contains(a) ==>
      var m := Lookup(f, top, PageOf(a, levels));
      m.Some? && m.value.frame == r.physicalBase + (a - r.base) / PAGE_SIZE * PAGE_SIZE
  }

  /** Every page of the region may be written and executed, and accessed by the user if `user` says so. */
  ghost predicate Granted(f: Flat, levels: nat, top: nat, r: Region, user: bool)
    requires levels == 4 || levels == 5
  {
    forall a: nat :: r.Contains(a) ==>
      var m := Lookup(f, top, PageOf(a, levels));
      m.Some? && Bit(m.value.flags, 1) && (Bit(m.value.flags, 2) <==> user) && !Bit(m.value.flags, 63)
  }

  /** A page-aligned region of the lower half. */
  predicate UserRegion(r: Region, levels: nat) {
    r.base % PAGE_SIZE == 0 && r.base + PageCount(r.size) * PAGE_SIZE <= UserEnd(levels)
  }

  /** Every user page of the page map lies in a frame that is in use. */
  ghost predicate FramesUsed(f: Flat, levels: nat, top: nat, used: set<nat>)
    requires levels == 4 || levels == 5
  {
    forall a: nat :: a < UserEnd(levels) ==>
      var m := Lookup(f, top, PageOf(a, levels));
      m.Some? ==> m.value.frame in used && m.value.frame % PAGE_SIZE == 0
  }

  /** Every user page of the page map is a whole frame. */
  ghost predicate FramesAligned(f: Flat, levels: nat, top: nat)
    requires levels == 4 || levels == 5
  {
    forall a: nat :: a < UserEnd(levels) ==>
      var m := Lookup(f, top, PageOf(a, levels)); m.Some? ==> m.value.frame % PAGE_SIZE == 0
  }

  /** The byte that a program sees at a mapped user address. */
  function ReadVirtual(f: Flat, levels: nat, top: nat, bytes: Bytes, a: nat): Option<Byte>
    requires levels == 4 || levels == 5
  {
    var m := Lookup(f, top, PageOf(a, levels));
    if m.Some? then Some(ReadByte(bytes, m.value.frame + a % PAGE_SIZE)) else None
  }

  /** The byte that a program gets at a user address of one of its regions: a fault fills in zeros. */
  function Seen(f: Flat, levels: nat, top: nat, bytes: Bytes, a: nat): Byte
    requires levels == 4 || levels == 5
  {
    var b := ReadVirtual(f, levels, top, bytes, a);
    if b.Some? then b.value else 0
  }

  // Attribute bits a region asks for (`Region::PageAttributes`); read, write and execute are always granted.
  const ACCESS_USER: nat := 0x8

  function RegionAttributes(access: nat): nat {
    Or(Or(WRITE_BACK, if And(access, ACCESS_USER) != 0 then USER else 0), Or(READ, Or(WRITE, EXECUTABLE)))
  }

  lemma RegionPagesSmall(access: nat)
    ensures SmallPage(RegionAttributes(access)) && SmallPage(FORK_ATTRIBUTES)
    ensures RegionAttributes(access) == if And(access, 8) != 0 then 0x30f else 0x307
  {
    assert And(0x307, 0x20) == 0 && And(0x307, 0x40) == 0 && And(0x30f, 0x20) == 0 && And(0x30f, 0x40) == 0;
    assert Or(READ, Or(WRITE, EXECUTABLE)) == 7;
    assert Or(WRITE_BACK, 0) == 0x300 && Or(WRITE_BACK, USER) == 0x308;
    assert Or(0x300, 7) == 0x307 && Or(0x308, 7) == 0x30f;
  }

  /** What the attributes of a region, and those used by a fork, mean for its pages. */
  lemma RegionFlagBits(access: nat)
    ensures var flags := ToNativeFlags(RegionAttributes(access));
            Bit(flags, 1) && (Bit(flags, 2) <==> Bit(access, 3)) && !Bit(flags, 63)
    ensures var flags := ToNativeFlags(FORK_ATTRIBUTES); Bit(flags, 1) && Bit(flags, 2) && !Bit(flags, 63)
  {
    RegionAttributeBits(access);
    hide ToNativeFlags, RegionAttributes, Bit;
    NativeFlagBits(RegionAttributes(access), 1);
    NativeFlagBits(RegionAttributes(access), 2);
    NativeFlagBits(RegionAttributes(access), 63);
    NativeFlagBits(FORK_ATTRIBUTES, 1);
    NativeFlagBits(FORK_ATTRIBUTES, 2);
    NativeFlagBits(FORK_ATTRIBUTES, 63);
  }

  lemma RegionAttributeBits(access: nat)
    ensures var x := RegionAttributes(access); Bit(x, 1) && Bit(x, 2) && (Bit(x, 3) <==> Bit(access, 3))
    ensures Bit(FORK_ATTRIBUTES, 1) && Bit(FORK_ATTRIBUTES, 2) && Bit(FORK_ATTRIBUTES, 3)
  {
    RegionPagesSmall(access);
    Pow2Values();
    AndFlag(access, 3);
    assert Bit(0x30f, 1) && Bit(0x30f, 2) && Bit(0x30f, 3) && Bit(0x307, 1) && Bit(0x307, 2) && !Bit(0x307, 3);
  }

  /** Outside the pages of `r` below `top`, the user pages of every page map are as before. */
  ghost predicate SameOutside(f: Flat, f': Flat, levels: nat, top: nat, r: Region)
    requires levels == 4 || levels == 5
  {
    forall top2: nat, a: nat ::
      a < UserEnd(levels) && !(top2 == top && r.base <= a < r.base + PageCount(r.size) * PAGE_SIZE) ==>
        Lookup(f', top2, PageOf(a, levels)) == Lookup(f, top2, PageOf(a, levels))
  }

  /** Mapping a fresh block behind a region backs the region and touches no other user page. */
  lemma MapRegionBacks(f: Flat, levels: nat, top: nat, r: Region, flags: nat, f': Flat, used: set<nat>)
    requires (levels == 4 || levels == 5) && UserRegion(r, levels) && r.size > 0
    requires FramesAligned(f, levels, top) && FreshBlock(used, r.physicalBase, PageCount(r.size))
    requires f' == MapPages(f, top, r.base, r.physicalBase, PageCount(r.size), flags, levels)
    ensures Backed(f', levels, top, r) && SameOutside(f, f', levels, top, r) && FramesAligned(f', levels, top)
    ensures forall user :: Bit(flags, 1) && (Bit(flags, 2) <==> user) && !Bit(flags, 63) ==>
            Granted(f', levels, top, r, user)
    ensures FramesUsed(f, levels, top, used) ==>
              FramesUsed(f', levels, top, used + Block(r.physicalBase, PageCount(r.size)))
    ensures forall avoid: set<nat> :: avoid <= used && Avoids(f, levels, top, avoid) ==> Avoids(f', levels, top, avoid)
  {
    hide Lookup, PageOf, MapPages, FramesUsed, FramesAligned, Avoids, UserEnd, FreshBlock, Bit;
    forall top2: nat, a: nat | a < UserEnd(levels)
      ensures Lookup(f', top2, PageOf(a, levels)) ==
              if top2 == top && r.base <= a < r.base + PageCount(r.size) * PAGE_SIZE
              then Some(Mapping(r.physicalBase + (a - r.base) / PAGE_SIZE * PAGE_SIZE, flags))
              else Lookup(f, top2, PageOf(a, levels))
    {
      MapPagesLookup(f, top, r.base, r.physicalBase, PageCount(r.size), flags, levels, top2, a);
    }
    MapRegionAligned(f, levels, top, r, f', used);
    if FramesUsed(f, levels, top, used) {
      MapRegionFrames(f, levels, top, r, f', used);
    }
    forall avoid: set<nat> | avoid <= used && Avoids(f, levels, top, avoid)
      ensures Avoids(f', levels, top, avoid)
    {
      MapRegionAvoids(f, levels, top, r, f', used, avoid);
    }
  }

  /** Every user page of `top` is as before, or it lies in the pages of `r` and has the frame behind it. */
  ghost predicate MapsRegion(f: Flat, f': Flat, levels: nat, top: nat, r: Region)
    requires levels == 4 || levels == 5
  {
    forall a: nat :: a < UserEnd(levels) ==>
      var m := Lookup(f', top, PageOf(a, levels));
      if r.base <= a < r.base + PageCount(r.size) * PAGE_SIZE
      then m.Some? && m.value.frame == r.physicalBase + (a - r.base) / PAGE_SIZE * PAGE_SIZE
      else m == Lookup(f, top, PageOf(a, levels))
  }

  lemma MapRegionAvoids(f: Flat, levels: nat, top: nat, r: Region, f': Flat, used: set<nat>, avoid: set<nat>)
    requires (levels == 4 || levels == 5) && MapsRegion(f, f', levels, top, r)
    requires FreshBlock(used, r.physicalBase, PageCount(r.size)) && avoid <= used && Avoids(f, levels, top, avoid)
    ensures Avoids(f', levels, top, avoid)
  {
    hide Lookup, PageOf, UserEnd, Block;
    forall a: nat | a < UserEnd(levels)
      ensures var m := Lookup(f', top, PageOf(a, levels)); m.Some? ==> m.value.frame !in avoid
    {
      if r.base <= a < r.base + PageCount(r.size) * PAGE_SIZE {
        FrameInBlock(r.physicalBase, PageCount(r.size), a - r.base);
      }
    }
  }

  lemma MapRegionAligned(f: Flat, levels: nat, top: nat, r: Region, f': Flat, used: set<nat>)
    requires (levels == 4 || levels == 5) && r.size > 0 && MapsRegion(f, f', levels, top, r)
    requires FramesAligned(f, levels, top) && FreshBlock(used, r.physicalBase, PageCount(r.size))
    ensures FramesAligned(f', levels, top)
  {
    assert IsFrame(r.physicalBase + 0 * PAGE_SIZE);
    hide Lookup, PageOf, UserEnd, FreshBlock;
  }

  lemma MapRegionFrames(f: Flat, levels: nat, top: nat, r: Region, f': Flat, used: set<nat>)
    requires (levels == 4 || levels == 5) && r.size > 0
    requires FramesUsed(f, levels, top, used) && FreshBlock(used, r.physicalBase, PageCount(r.size))
    requires MapsRegion(f, f', levels, top, r)
    ensures FramesUsed(f', levels, top, used + Block(r.physicalBase, PageCount(r.size)))
  {
    assert IsFrame(r.physicalBase + 0 * PAGE_SIZE);
    hide Lookup, PageOf, UserEnd, Block, FreshBlock;
    forall a: nat | a < UserEnd(levels)
      ensures var m := Lookup(f', top, PageOf(a, levels));
              m.Some? ==> m.value.frame in used + Block(r.physicalBase, PageCount(r.size))
                          && m.value.frame % PAGE_SIZE == 0
    {
      if r.base <= a < r.base + PageCount(r.size) * PAGE_SIZE {
        FrameInBlock(r.physicalBase, PageCount(r.size), a - r.base);
      }
    }
  }

  // ----- What the copy loop of a fork keeps -----

  /** No byte of a frame in `used` has changed. */
  ghost predicate KeptOn(used: set<nat>, before: Bytes, after: Bytes) {
    forall a: nat {:trigger ReadByte(after, a)} :: a / PAGE_SIZE * PAGE_SIZE in used ==>
      ReadByte(after, a) == ReadByte(before, a)
  }

  ghost predicate SameView(f: Flat, f': Flat, levels: nat, top: nat)
    requires levels == 4 || levels == 5
  {
    forall a: nat :: a < UserEnd(levels) ==> Lookup(f', top, PageOf(a, levels)) == Lookup(f, top, PageOf(a, levels))
  }

  /** The user pages of this page map avoid the given frames. */
  ghost predicate Avoids(f: Flat, levels: nat, top: nat, frames: set<nat>)
    requires levels == 4 || levels == 5
  {
    forall a: nat :: a < UserEnd(levels) ==>
      var m := Lookup(f, top, PageOf(a, levels)); m.Some? ==> m.value.frame !in frames
  }

  /** The frames from the region's physical base on are whole frames in use. */
  predicate InUse(used: set<nat>, r: Region) {
    r.physicalBase % PAGE_SIZE == 0 && Block(r.physicalBase, PageCount(r.size)) <= used
  }

  /**
   `copy` is `r` in other frames, mapped in the page map `top`. If the frames of `r` were in use
   before (`used0`), it holds the bytes they held.
   */
  ghost predicate IsCopy(f: Flat, levels: nat, top: nat, before: Bytes, after: Bytes, used0: set<nat>, used: set<nat>,
                         r: Region, copy: Region)
    requires levels == 4 || levels == 5
  {
    && copy == r.(physicalBase := copy.physicalBase)
    && Backed(f, levels, top, copy) && Granted(f, levels, top, copy, true)
    && InUse(used, copy)
    && (InUse(used0, r) ==>
          forall a: nat {:trigger ReadByte(after, a)} :: copy.physicalBase <= a < copy.physicalBase + r.size ==>
            ReadByte(after, a) == ReadByte(before, r.physicalBase + (a - copy.physicalBase)))
  }

  lemma BlockKeeps(before: Bytes, after: Bytes, used: set<nat>, phys: nat, n: nat)
    requires OnlyBlock(before, after, phys, n) && FreshBlock(used, phys, n)
    ensures KeptOn(used, before, after)
  {
    forall a: nat | a / PAGE_SIZE * PAGE_SIZE in used
      ensures ReadByte(after, a) == ReadByte(before, a)
    {
      ByteApart(used, phys, n, a / PAGE_SIZE * PAGE_SIZE, a % PAGE_SIZE);
    }
  }

  /** A finished copy stays one while later regions are copied. */
  lemma CopyKept(f: Flat, f': Flat, levels: nat, top: nat, before: Bytes, mid: Bytes, after: Bytes,
                 used0: set<nat>, used: set<nat>, used': set<nat>, r: Region, copy: Region, later: Region)
    requires (levels == 4 || levels == 5) && UserRegion(r, levels) && r.size > 0
    requires IsCopy(f, levels, top, before, mid, used0, used, r, copy) && KeptOn(used, mid, after) && used <= used'
    requires SameOutside(f, f', levels, top, later) && r.base + r.size <= later.base
    ensures IsCopy(f', levels, top, before, after, used0, used', r, copy)
  {
    hide Lookup, PageOf, UserEnd;
    forall a: nat | copy.physicalBase <= a < copy.physicalBase + r.size
      ensures ReadByte(after, a) == ReadByte(mid, a)
    {
      FrameInBlock(copy.physicalBase, PageCount(r.size), a - copy.physicalBase);
    }
    forall a: nat | copy.Contains(a)
      ensures Lookup(f', top, PageOf(a, levels)) == Lookup(f, top, PageOf(a, levels))
    {
      InUserHalf(r, levels, a);
    }
  }

  lemma InUserHalf(r: Region, levels: nat, a: nat)
    requires UserRegion(r, levels) && r.Contains(a)
    ensures a < UserEnd(levels)
  {
  }

  function TotalPages(rs: seq<Region>): nat {
    if rs == [] then 0 else PageCount(rs[0].size) + TotalPages(rs[1..])
  }

  /** A new page map has no user pages, and the others keep theirs. */
  lemma NewMapView(f: Flat, f': Flat, levels: nat, top: nat, newTop: nat, used: set<nat>, bytes: Bytes)
    requires (levels == 4 || levels == 5) && newTop != top
    requires f' == f.(lower := f.lower[newTop := map[]])
    ensures SameView(f, f', levels, top) && KeptOn(used, bytes, bytes)
    ensures Avoids(f', levels, newTop, used) && FramesUsed(f', levels, newTop, used) &&
            FramesAligned(f', levels, newTop)
  {
    hide PageOf;
    forall a: nat | a < UserEnd(levels)
      ensures Lookup(f', top, PageOf(a, levels)) == Lookup(f, top, PageOf(a, levels))
      ensures Lookup(f', newTop, PageOf(a, levels)) == None
    {
      UserTopIndex(a, levels);
    }
  }

  lemma BackedFrames(f: Flat, levels: nat, top: nat, r: Region, used: set<nat>)
    requires (levels == 4 || levels == 5) && Backed(f, levels, top, r) && FramesUsed(f, levels, top, used)
    requires UserRegion(r, levels) && r.size > 0
    ensures InUse(used, r)
  {
    hide Lookup, PageOf;
    assert r.Contains(r.base) && (r.base - r.base) / PAGE_SIZE * PAGE_SIZE == 0;
    forall k: nat | k < PageCount(r.size)
      ensures r.physicalBase + k * PAGE_SIZE in used
    {
      var a := r.base + k * PAGE_SIZE;
      assert r.Contains(a);
      assert (a - r.base) / PAGE_SIZE * PAGE_SIZE == k * PAGE_SIZE;
    }
  }

  lemma FrameOfByte(frame: nat, off: nat)
    requires frame % PAGE_SIZE == 0
    ensures (frame + off) / PAGE_SIZE * PAGE_SIZE == frame + off / PAGE_SIZE * PAGE_SIZE
  {
  }

  lemma NewCopy(f: Flat, levels: nat, top: nat, before: Bytes, mid: Bytes, after: Bytes,
                used0: set<nat>, used: set<nat>, used': set<nat>, r: Region, copy: Region)
    requires (levels == 4 || levels == 5) && r.size > 0 && copy == r.(physicalBase := copy.physicalBase)
    requires Backed(f, levels, top, copy) && Granted(f, levels, top, copy, true)
    requires FreshBlock(used, copy.physicalBase, PageCount(r.size))
    requires used' == used + Block(copy.physicalBase, PageCount(r.size))
    requires InUse(used, r) ==> CopiedTo(mid, after, r.physicalBase, copy.physicalBase, r.size, PageCount(r.size))
    requires KeptOn(used0, before, mid) && used0 <= used
    ensures IsCopy(f, levels, top, before, after, used0, used', r, copy)
  {
    assert IsFrame(copy.physicalBase + 0 * PAGE_SIZE);
    hide Backed, Block, FreshBlock;
    forall a: nat | InUse(used0, r) && copy.physicalBase <= a < copy.physicalBase + r.size
      ensures ReadByte(after, a) == ReadByte(before, r.physicalBase + (a - copy.physicalBase))
    {
      FrameInBlock(r.physicalBase, PageCount(r.size), a - copy.physicalBase);
      FrameOfByte(r.physicalBase, a - copy.physicalBase);
      assert ReadByte(mid, r.physicalBase + (a - copy.physicalBase))
          == ReadByte(before, r.physicalBase + (a - copy.physicalBase));
    }
  }

  lemma CopiesBelow(f: Flat, levels: nat, top: nat, before: Bytes, after: Bytes, used0: set<nat>, used: set<nat>,
                    rs: seq<Region>, copies: seq<Region>)
    requires (levels == 4 || levels == 5) && |copies| < |rs| && Regions.Disjoint(rs)
    requires forall j :: 0 <= j < |copies| ==> IsCopy(f, levels, top, before, after, used0, used, rs[j], copies[j])
    ensures forall x :: x in copies ==> x.base + x.size <= rs[|copies|].base
  {
    hide Backed;
  }

  lemma ViewKept(f0: Flat, f: Flat, f': Flat, levels: nat, top: nat, childTop: nat, r: Region)
    requires (levels == 4 || levels == 5) && top != childTop
    requires SameView(f0, f, levels, top) && SameOutside(f, f', levels, childTop, r)
    ensures SameView(f0, f', levels, top)
  {
    hide Lookup, PageOf, UserEnd;
  }

  lemma KeptTwice(used0: set<nat>, used: set<nat>, before: Bytes, mid: Bytes, after: Bytes)
    requires used0 <= used && KeptOn(used0, before, mid) && KeptOn(used, mid, after)
    ensures KeptOn(used0, before, after)
  {
    forall a: nat | a / PAGE_SIZE * PAGE_SIZE in used0
      ensures ReadByte(after, a) == ReadByte(before, a)
    {
      assert ReadByte(mid, a) == ReadByte(before, a);
    }
  }

  /** No frame is mapped in the lower halves of both page maps. */
  ghost predicate Isolated(f: Flat, levels: nat, top1: nat, top2: nat)
    requires levels == 4 || levels == 5
  {
    forall a: nat, b: nat | a < UserEnd(levels) && b < UserEnd(levels) ::
      var m1, m2 := Lookup(f, top1, PageOf(a, levels)), Lookup(f, top2, PageOf(b, levels));
      m1.Some? && m2.Some? ==>
        m1.value.frame != m2.value.frame && m1.value.frame % PAGE_SIZE == 0 && m2.value.frame % PAGE_SIZE == 0
  }

  /** Every frame handed out since `used0` belongs to one of the copies. */
  ghost predicate HandedOut(used0: set<nat>, used: set<nat>, copies: seq<Region>) {
    forall x :: x in used && x !in used0 ==>
      exists j :: 0 <= j < |copies| && x in Block(copies[j].physicalBase, PageCount(copies[j].size))
  }

  lemma CopyMapsFrame(f: Flat, levels: nat, childTop: nat, copy: Region, x: nat) returns (a: nat)
    requires (levels == 4 || levels == 5) && UserRegion(copy, levels) && Backed(f, levels, childTop, copy)
    requires x in Block(copy.physicalBase, PageCount(copy.size))
    ensures a < UserEnd(levels)
    ensures var m := Lookup(f, childTop, PageOf(a, levels)); m.Some? && m.value.frame == x
  {
    hide Lookup, PageOf;
    var k :| 0 <= k < PageCount(copy.size) && x == copy.physicalBase + k * PAGE_SIZE;
    a := copy.base + k * PAGE_SIZE;
    assert copy.Contains(a) && (a - copy.base) / PAGE_SIZE * PAGE_SIZE == k * PAGE_SIZE;
  }

  /**
   A child that maps exactly the frames handed out since `used0` shares no frame with the parent
   if and only if no page of the parent lies in one of those.
   */
  lemma ForkIsolatesIff(f0: Flat, f: Flat, levels: nat, top: nat, childTop: nat, used0: set<nat>, used: set<nat>,
                        copies: seq<Region>)
    requires (levels == 4 || levels == 5) && SameView(f0, f, levels, top) && FramesAligned(f0, levels, top)
    requires Avoids(f, levels, childTop, used0) && FramesUsed(f, levels, childTop, used)
    requires HandedOut(used0, used, copies)
    requires forall j :: 0 <= j < |copies| ==> UserRegion(copies[j], levels) && Backed(f, levels, childTop, copies[j])
    ensures Isolated(f, levels, top, childTop) <==> Avoids(f0, levels, top, used - used0)
  {
    hide Lookup, PageOf, UserEnd, UserRegion, Backed, Block;
    if Isolated(f, levels, top, childTop) {
      forall a: nat | a < UserEnd(levels)
        ensures var m := Lookup(f0, top, PageOf(a, levels)); m.Some? ==> m.value.frame !in used - used0
      {
        var m := Lookup(f0, top, PageOf(a, levels));
        if m.Some? && m.value.frame in used - used0 {
          var j :| 0 <= j < |copies| && m.value.frame in Block(copies[j].physicalBase, PageCount(copies[j].size));
          var b := CopyMapsFrame(f, levels, childTop, copies[j], m.value.frame);
        }
      }
    }
  }

  /** Pages of frames that are all in use lie in none that was handed out later. */
  lemma UsedAvoids(f: Flat, levels: nat, top: nat, used0: set<nat>, used: set<nat>)
    requires (levels == 4 || levels == 5) && FramesUsed(f, levels, top, used0)
    ensures Avoids(f, levels, top, used - used0)
  {
    hide Lookup, PageOf, UserEnd;
  }

  /** A write through one of two isolated page maps is not seen through the other. */
  lemma WriteIsolated(f: Flat, levels: nat, top1: nat, top2: nat, bytes: Bytes, a: nat, v: Byte, b: nat)
    requires (levels == 4 || levels == 5) && a < UserEnd(levels) && b < UserEnd(levels)
    requires Isolated(f, levels, top1, top2) || Isolated(f, levels, top2, top1)
    requires Lookup(f, top1, PageOf(a, levels)).Some?
    ensures var phys := Lookup(f, top1, PageOf(a, levels)).value.frame + a % PAGE_SIZE;
            ReadVirtual(f, levels, top2, bytes[phys := v], b) == ReadVirtual(f, levels, top2, bytes, b)
  {
    hide Lookup, PageOf, UserEnd;
  }

  /** No page of the region is mapped, as before the first fault in it. */
  ghost predicate Untouched(f: Flat, levels: nat, top: nat, r: Region)
    requires levels == 4 || levels == 5
  {
    forall a: nat :: r.Contains(a) ==> Lookup(f, top, PageOf(a, levels)) == None
  }

  /**
   Through the child's page map the copy of a region always reads something: if the frames from the
   region's physical base on were in use, their bytes. In a backed region these are the bytes that
   the parent sees. In one that was never touched the parent sees zero, so the copy is right
   exactly where those frames hold zero.
   */
  lemma CopyReads(f0: Flat, f: Flat, levels: nat, top: nat, childTop: nat, before: Bytes, after: Bytes, used0: set<nat>,
                  used: set<nat>, r: Region, copy: Region, a: nat)
    requires (levels == 4 || levels == 5) && UserRegion(r, levels) && r.size > 0 && r.Contains(a)
    requires IsCopy(f, levels, childTop, before, after, used0, used, r, copy)
    ensures CopyRead(f0, f, levels, top, childTop, before, after, used0, r, a)
  {
    hide Lookup, PageOf;
    var off := a - r.base;
    assert copy.Contains(a);
    assert off / PAGE_SIZE * PAGE_SIZE + a % PAGE_SIZE == off;
  }

  ghost predicate CopyRead(f0: Flat, f: Flat, levels: nat, top: nat, childTop: nat, before: Bytes, after: Bytes,
                           used0: set<nat>, r: Region, a: nat)
    requires (levels == 4 || levels == 5) && r.Contains(a)
  {
    var there, here := ReadVirtual(f, levels, childTop, after, a), Seen(f0, levels, top, before, a);
    var source := ReadByte(before, r.physicalBase + (a - r.base));
    && there.Some?
    && (InUse(used0, r) ==>
          && there.value == source
          && (Backed(f0, levels, top, r) ==> there.value == here)
          && (Untouched(f0, levels, top, r) ==> here == 0 && (there.value == here <==> source == 0)))
  }

  /** The pages a forked region is mapped with: readable, writable, executable, user, write-back. */
  const FORK_ATTRIBUTES: nat := 0x30f

  /** The state of the copy loop: `copies` of the first regions are made, and the parent is as it was. */
  ghost predicate Copying(f0: Flat, f: Flat, levels: nat, top: nat, childTop: nat, before: Bytes, after: Bytes,
                          used0: set<nat>, used: set<nat>, rs: seq<Region>, copies: seq<Region>)
    requires levels == 4 || levels == 5
  {
    && |copies| <= |rs| && used0 <= used
    && (forall j :: 0 <= j < |copies| ==> IsCopy(f, levels, childTop, before, after, used0, used, rs[j], copies[j]))
    && SameView(f0, f, levels, top) && KeptOn(used0, before, after)
    && Avoids(f, levels, childTop, used0) && HandedOut(used0, used, copies)
  }

  lemma CopyingStart(f0: Flat, f: Flat, levels: nat, top: nat, childTop: nat, bytes: Bytes, used: set<nat>,
                     rs: seq<Region>)
    requires (levels == 4 || levels == 5) && SameView(f0, f, levels, top)
    requires KeptOn(used, bytes, bytes) && Avoids(f, levels, childTop, used)
    ensures Copying(f0, f, levels, top, childTop, bytes, bytes, used, used, rs, [])
  {
    hide SameView, KeptOn, Avoids;
  }

  lemma CopyingBelow(f0: Flat, f: Flat, levels: nat, top: nat, childTop: nat, before: Bytes, after: Bytes,
                     used0: set<nat>, used: set<nat>, rs: seq<Region>, copies: seq<Region>)
    requires (levels == 4 || levels == 5) && |copies| < |rs| && Regions.Disjoint(rs)
    requires Copying(f0, f, levels, top, childTop, before, after, used0, used, rs, copies)
    ensures forall x :: x in copies ==> x.base + x.size <= rs[|copies|].base
    ensures used0 <= used && Avoids(f, levels, childTop, used0)
  {
    hide IsCopy, SameView, KeptOn, Avoids;
    CopiesBelow(f, levels, childTop, before, after, used0, used, rs, copies);
  }

  lemma CopyingStep(f0: Flat, f: Flat, f': Flat, levels: nat, top: nat, childTop: nat, before: Bytes, mid: Bytes,
                    after: Bytes,
                    used0: set<nat>, used: set<nat>, used': set<nat>, rs: seq<Region>, copies: seq<Region>,
                      copy: Region)
    requires (levels == 4 || levels == 5) && |copies| < |rs| && Regions.Disjoint(rs) && top != childTop
    requires forall j :: 0 <= j < |rs| ==> UserRegion(rs[j], levels)
    requires Copying(f0, f, levels, top, childTop, before, mid, used0, used, rs, copies)
    requires var r := rs[|copies|];
             && copy == r.(physicalBase := copy.physicalBase)
             && FreshBlock(used, copy.physicalBase, PageCount(r.size))
             && used' == used + Block(copy.physicalBase, PageCount(r.size))
             && Backed(f', levels, childTop, copy) && Granted(f', levels, childTop, copy, true)
             && SameOutside(f, f', levels, childTop, copy)
             && (InUse(used, r) ==> CopiedTo(mid, after, r.physicalBase, copy.physicalBase, r.size, PageCount(r.size)))
             && KeptOn(used, mid, after) && Avoids(f', levels, childTop, used0)
    ensures Copying(f0, f', levels, top, childTop, before, after, used0, used', rs, copies + [copy])
  {
    hide IsCopy, SameView, KeptOn, Avoids, Backed, Granted, SameOutside, CopiedTo, FreshBlock, Block, InUse, UserRegion;
    hide HandedOut;
    HandedOutMore(used0, used, used', copies, copy);
    var i := |copies|;
    assert forall j :: 0 <= j < |rs| ==> Regions.Sound(rs[j]);
    forall j | 0 <= j < i
      ensures IsCopy(f', levels, childTop, before, after, used0, used', rs[j], copies[j])
    {
      CopyKept(f, f', levels, childTop, before, mid, after, used0, used, used', rs[j], copies[j], copy);
    }
    NewCopy(f', levels, childTop, before, mid, after, used0, used, used', rs[i], copy);
    ViewKept(f0, f, f', levels, top, childTop, copy);
    KeptTwice(used0, used, before, mid, after);
  }

  lemma HandedOutMore(used0: set<nat>, used: set<nat>, used': set<nat>, copies: seq<Region>, copy: Region)
    requires HandedOut(used0, used, copies) && used' == used + Block(copy.physicalBase, PageCount(copy.size))
    ensures HandedOut(used0, used', copies + [copy])
  {
    hide Block;
    var all := copies + [copy];
    forall x | x in used' && x !in used0
      ensures exists j :: 0 <= j < |all| && x in Block(all[j].physicalBase, PageCount(all[j].size))
    {
      if x in used {
        var j :| 0 <= j < |copies| && x in Block(copies[j].physicalBase, PageCount(copies[j].size));
        assert all[j] == copies[j];
      } else {
        assert all[|copies|] == copy;
      }
    }
  }

  lemma CopyingEnd(f0: Flat, f: Flat, levels: nat, top: nat, childTop: nat, before: Bytes, after: Bytes,
                   used0: set<nat>, used: set<nat>, rs: seq<Region>, copies: seq<Region>)
    requires (levels == 4 || levels == 5) && |copies| == |rs| && Regions.Disjoint(rs)
    requires forall j :: 0 <= j < |rs| ==> UserRegion(rs[j], levels)
    requires Copying(f0, f, levels, top, childTop, before, after, used0, used, rs, copies)
    requires FramesAligned(f0, levels, top) && FramesUsed(f, levels, childTop, used)
    ensures forall j :: 0 <= j < |rs| ==> IsCopy(f, levels, childTop, before, after, used0, used, rs[j], copies[j])
    ensures SameView(f0, f, levels, top) && KeptOn(used0, before, after)
    ensures Isolated(f, levels, top, childTop) <==> Avoids(f0, levels, top, used - used0)
    ensures forall i, a: nat :: 0 <= i < |rs| && rs[i].Contains(a) ==>
              CopyRead(f0, f, levels, top, childTop, before, after, used0, rs[i], a)
  {
    hide SameView, KeptOn, Avoids, Backed, Granted, FramesUsed, FramesAligned, Untouched, InUse, ReadVirtual,
         Isolated, CopyRead,
         HandedOut;
    forall j | 0 <= j < |copies|
      ensures UserRegion(copies[j], levels) && Backed(f, levels, childTop, copies[j])
    {
      assert IsCopy(f, levels, childTop, before, after, used0, used, rs[j], copies[j]);
    }
    hide IsCopy, UserRegion;
    ForkIsolatesIff(f0, f, levels, top, childTop, used0, used, copies);
    forall i, a: nat | 0 <= i < |rs| && rs[i].Contains(a)
      ensures CopyRead(f0, f, levels, top, childTop, before, after, used0, rs[i], a)
    {
      CopyReads(f0, f, levels, top, childTop, before, after, used0, used, rs[i], copies[i], a);
    }
  }

  lemma ReadsZero(f: Flat, levels: nat, top: nat, bytes: Bytes, r: Region)
    requires (levels == 4 || levels == 5) && Backed(f, levels, top, r) && r.base % PAGE_SIZE == 0
    requires forall a: nat :: InBlock(a, r.physicalBase, PageCount(r.size)) ==> ReadByte(bytes, a) == 0
    ensures forall a: nat :: r.Contains(a) ==> ReadVirtual(f, levels, top, bytes, a) == Some(0)
  {
    hide Lookup, PageOf;
    forall a: nat | r.Contains(a)
      ensures ReadVirtual(f, levels, top, bytes, a) == Some(0)
    {
      var off := a - r.base;
      assert off / PAGE_SIZE * PAGE_SIZE + a % PAGE_SIZE == off;
      assert InBlock(r.physicalBase + off, r.physicalBase, PageCount(r.size));
    }
  }

  class Process {
    const memory: PhysicalMemory
    const mmu: PageTables
    const space: AddressSpaces.AddressSpace
    const top: nat

    ghost predicate Valid()
      reads this, memory, mmu, space
    {
      && memory as object != mmu && memory as object != space && mmu as object != space
      && mmu.Valid() && top in mmu.tops && space.Valid() && Regions.Disjoint(space.regions)
      && FramesAligned(mmu.flat, mmu.levels, top)
      && forall r :: r in space.regions ==> UserRegion(r, mmu.levels)
    }

    /** Every user page lies in a frame that is in use, as long as no frame is freed while it is mapped. */
    ghost predicate Accounted()
      requires mmu.levels == 4 || mmu.levels == 5
      reads this, memory, mmu
    {
      FramesUsed(mmu.flat, mmu.levels, top, memory.used)
    }

    constructor (memory: PhysicalMemory, mmu: PageTables, space: AddressSpaces.AddressSpace, top: nat)
      ensures this.memory == memory && this.mmu == mmu && this.space == space && this.top == top
    {
      this.memory := memory;
      this.mmu := mmu;
      this.space := space;
      this.top := top;
    }

    /**
     Resolves a fault inside a region by allocating and mapping the whole region. On success every
     address of the region translates to the new physical base plus its offset, every other user
     page of every page map is as before, and only the region's record changes. All of the region
     then reads as zero, also when it was backed before: the code does not look at the reason.
     */
    method HandlePageFault(address: nat) returns (resolved: bool, ghost region: Region, ghost phys: nat)
      requires Valid()
      requires forall r :: r in space.regions ==> |mmu.pool| >= 4 * PageCount(r.size)
      modifies memory, mmu, space
      ensures Valid() && (old(Accounted()) ==> Accounted())
      ensures (forall r :: r in old(space.regions) ==> !r.Contains(address)) ==> !resolved
      ensures resolved ==>
                && region in old(space.regions) && region.Contains(address)
                && FreshBlock(old(memory.used), phys, PageCount(region.size))
                && Backed(mmu.flat, mmu.levels, top, region.(physicalBase := phys))
                && Granted(mmu.flat, mmu.levels, top, region.(physicalBase := phys), Bit(region.access, 3))
                && SameOutside(old(mmu.flat), mmu.flat, mmu.levels, top, region)
                && KeptOn(old(memory.used), old(memory.bytes), memory.bytes)
                && (forall a: nat :: region.Contains(a) ==>
                      ReadVirtual(mmu.flat, mmu.levels, top, memory.bytes, a) == Some(0))
                && forall x :: x in space.regions <==>
                     (x in old(space.regions) && x != region) || x == region.(physicalBase := phys)
      ensures !resolved ==>
                && mmu.flat == old(mmu.flat) && space.regions == old(space.regions)
                && memory.used == old(memory.used) && memory.bytes == old(memory.bytes)
    {
      hide Owned, Refines, PoolOk, KernelComplete, Lookup, PageOf, MapPages, UserEnd, Regions.Disjoint,
           Regions.Sorted, KeptOn, ReadVirtual, FramesUsed, FramesAligned, Backed, Granted, ToNativeFlags,
             RegionAttributes;
      region, phys := Regions.Region(0, 0, 0, 0), 0;
      var found := space.Find(address);
      if found.None? {
        return false, region, phys;
      }
      var r := found.value;
      var pageCount := PageCount(r.size);
      var base := memory.CallocatePages(pageCount);
      if base == 0 {
        return false, region, phys;
      }
      region, phys := r, base;
      space.SetPhysicalBase(r, base);
      RegionPagesSmall(r.access);
      RegionFlagBits(r.access);
      ghost var f := mmu.flat;
      var ok := mmu.MapRange(top, r.base, base, r.size, RegionAttributes(r.access));
      MapRegionBacks(f, mmu.levels, top, r.(physicalBase := base), ToNativeFlags(RegionAttributes(r.access)), mmu.flat,
                     old(memory.used));
      BlockKeeps(old(memory.bytes), memory.bytes, old(memory.used), base, pageCount);
      ReadsZero(mmu.flat, mmu.levels, top, memory.bytes, r.(physicalBase := base));
      resolved := true;
    }

    /** Copies one region of the parent into fresh frames and maps them in the child. */
    method CopyRegion(child: Process, r: Region) returns (ok: bool, copy: Region)
      requires child.Valid() && child.memory == memory && child.mmu == mmu && child != this
      requires Regions.Sound(r) && UserRegion(r, mmu.levels)
      requires |mmu.pool| >= 4 * PageCount(r.size)
      requires forall x :: x in child.space.regions ==> x.base + x.size <= r.base
      modifies memory, mmu, child.space
      ensures mmu.Valid() && mmu.tops == old(mmu.tops) && |mmu.pool| >= |old(mmu.pool)| - 4 * PageCount(r.size)
      ensures mmu.kernelTop == old(mmu.kernelTop)
      ensures ok ==>
                && child.Valid() && (old(child.Accounted()) ==> child.Accounted())
                && copy == r.(physicalBase := copy.physicalBase)
                && child.space.regions == old(child.space.regions) + [copy]
                && FreshBlock(old(memory.used), copy.physicalBase, PageCount(r.size))
                && memory.used == old(memory.used) + Block(copy.physicalBase, PageCount(r.size))
                && Backed(mmu.flat, mmu.levels, child.top, copy) && Granted(mmu.flat, mmu.levels, child.top, copy, true)
                && SameOutside(old(mmu.flat), mmu.flat, mmu.levels, child.top, copy)
                && (InUse(old(memory.used), r) ==>
                      CopiedTo(old(memory.bytes), memory.bytes, r.physicalBase, copy.physicalBase, r.size,
                               PageCount(r.size)))
                && KeptOn(old(memory.used), old(memory.bytes), memory.bytes)
      ensures ok ==>
                forall avoid: set<nat> | avoid <= old(memory.used) && Avoids(old(mmu.flat), mmu.levels, child.top,
                                                                             avoid) ::
                  Avoids(mmu.flat, mmu.levels, child.top, avoid)
    {
      hide Owned, Refines, PoolOk, KernelComplete, Lookup, PageOf, MapPages, UserEnd, CopiedTo, KeptOn, ToNativeFlags,
           Backed, SameOutside, Avoids;
      copy := r;
      var phys := memory.Clone(r.physicalBase, r.size);
      if phys == 0 {
        return false, copy;
      }
      BlockKeeps(old(memory.bytes), memory.bytes, old(memory.used), phys, PageCount(r.size));
      RegionPagesSmall(r.access);
      RegionFlagBits(r.access);
      ghost var f := mmu.flat;
      ok := mmu.MapRange(child.top, r.base, phys, r.size, FORK_ATTRIBUTES);
      copy := r.(physicalBase := phys);
      MapRegionBacks(f, mmu.levels, child.top, copy, ToNativeFlags(FORK_ATTRIBUTES), mmu.flat, old(memory.used));
      Regions.InsertedLast(child.space.regions, copy);
      child.space.Insert(copy);
    }

    /**
     The address-space copy of a fork. The child gets every region in frames of its own, filled
     from the region's physical base; `CopyRead` says what it then reads. The parent's view and the
     memory in use are unchanged. No frame is shared exactly when no page of the parent lies in a
     frame that was handed out, which is so if all its frames were in use.
     */
    method Fork() returns (ok: bool, child: Process)
      requires Valid() && mmu.kernelTop.Some?
      requires |mmu.pool| >= 1 + 4 * TotalPages(space.regions)
      modifies memory, mmu
      ensures ok ==>
                && child.Valid() && child.memory == memory && child.mmu == mmu && fresh(child.space)
                && child.top !in old(mmu.tops)
                && |child.space.regions| == |space.regions|
                && (forall i :: 0 <= i < |space.regions| ==>
                      IsCopy(mmu.flat, mmu.levels, child.top, old(memory.bytes), memory.bytes, old(memory.used),
                             memory.used,
                             space.regions[i], child.space.regions[i]))
      ensures ok ==> forall i, a: nat :: 0 <= i < |space.regions| && space.regions[i].Contains(a) ==>
                CopyRead(old(mmu.flat), mmu.flat, mmu.levels, top, child.top, old(memory.bytes), memory.bytes,
                         old(memory.used), space.regions[i], a)
      ensures ok ==> SameView(old(mmu.flat), mmu.flat, mmu.levels, top)
      ensures ok ==> KeptOn(old(memory.used), old(memory.bytes), memory.bytes)
      ensures ok ==>
                && child.Accounted()
                && (Isolated(mmu.flat, mmu.levels, top, child.top) <==>
                    Avoids(old(mmu.flat), mmu.levels, top, memory.used - old(memory.used)))
      ensures ok && old(Accounted()) ==> Isolated(mmu.flat, mmu.levels, top, child.top)
    {
      hide Owned, Refines, PoolOk, KernelComplete, Lookup, PageOf, UserEnd, Backed, CopiedTo, KeptOn, IsCopy,
           UserRegion, FreshBlock, Block, SameView, Avoids, SameOutside, FramesUsed, FramesAligned, Isolated,
             CopyRead, InUse,
           Regions.Sorted, Copying;
      ghost var f0, bytes0, used0 := mmu.flat, memory.bytes, memory.used;
      var childTop := mmu.NewPageMap();
      NewMapView(f0, mmu.flat, mmu.levels, top, childTop, used0, bytes0);
      CopyingStart(f0, mmu.flat, mmu.levels, top, childTop, bytes0, used0, space.regions);
      var childSpace := new AddressSpaces.AddressSpace(space.rangeBase);
      child := new Process(memory, mmu, childSpace, childTop);
      ok := CopyRegions(child, f0, bytes0, used0);
      if ok {
        CopyingEnd(f0, mmu.flat, mmu.levels, top, childTop, bytes0, memory.bytes, used0, memory.used,
                   space.regions, child.space.regions);
        if FramesUsed(f0, mmu.levels, top, used0) {
          UsedAvoids(f0, mmu.levels, top, used0, memory.used);
        }
      }
    }

    /** The loop over the parent's regions; `f0`, `bytes0` and `used0` are the state before the fork. */
    method CopyRegions(child: Process, ghost f0: Flat, ghost bytes0: Bytes, ghost used0: set<nat>) returns (ok: bool)
      requires child.Valid() && child.Accounted() && child.memory == memory && child.mmu == mmu && child.top != top
      requires child.space != space && child.space as object != memory && child.space as object != mmu
      requires space as object != memory && space as object != mmu
      requires Regions.Disjoint(space.regions) && forall r :: r in space.regions ==> UserRegion(r, mmu.levels)
      requires |mmu.pool| >= 4 * TotalPages(space.regions) && child.space.regions == []
      requires Copying(f0, mmu.flat, mmu.levels, top, child.top, bytes0, memory.bytes, used0, memory.used,
                       space.regions, [])
      modifies memory, mmu, child.space
      ensures ok ==>
                && child.Valid() && child.Accounted() && |child.space.regions| == |space.regions|
                && Copying(f0, mmu.flat, mmu.levels, top, child.top, bytes0, memory.bytes, used0, memory.used,
                           space.regions, child.space.regions)
    {
      hide Owned, Refines, PoolOk, KernelComplete, Lookup, PageOf, UserEnd, Backed, CopiedTo, KeptOn,
           UserRegion, FreshBlock, Block, Avoids, SameOutside, FramesUsed, FramesAligned, InUse, Regions.Sorted,
             Copying;
      ghost var regions := space.regions;
      var i := 0;
      while i < |space.regions|
        invariant i <= |space.regions| && space.regions == regions && child.Valid() && child.Accounted()
        invariant |mmu.pool| >= 4 * TotalPages(regions[i..]) && |child.space.regions| == i
        invariant Copying(f0, mmu.flat, mmu.levels, top, child.top, bytes0, memory.bytes, used0, memory.used,
                          regions, child.space.regions)
      {
        var r := space.regions[i];
        ghost var f, b, used, copies := mmu.flat, memory.bytes, memory.used, child.space.regions;
        CopyingBelow(f0, f, mmu.levels, top, child.top, bytes0, b, used0, used, regions, copies);
        assert regions[i..][1..] == regions[i + 1..];
        var copied, copy := CopyRegion(child, r);
        if !copied {
          return false;
        }
        CopyingStep(f0, f, mmu.flat, mmu.levels, top, child.top, bytes0, b, memory.bytes, used0, used, memory.used,
                    regions, copies, copy);
        i := i + 1;
      }
      ok := true;
    }
  }
}
