/**
 The page-map operations of Kernel/Arch/x86_64/VMM.cpp, Kernel/Memory/VMM.cpp and
 Kernel/Memory/PageMap.cpp on 4 KiB pages, refining a flat map from pages to frames.
 */
module PageMaps {
  import opened Wrappers
  import opened PageEntry
  import opened PageWalk
  import opened PageTops
  import opened FlatMaps
  import opened PageRange

  // ----- Runs of operations -----

  datatype Op = MapOp(top: nat, virt: nat, phys: nat, attribs: nat) | UnmapOp(top: nat, virt: nat)

  function Value(op: Op): Option<Mapping> {
    match op
    case MapOp(_, _, phys, attribs) => Some(Mapping(phys, ToNativeFlags(attribs)))
    case UnmapOp(_, _) => None
  }

  function FlatRun(f: Flat, ops: seq<Op>, levels: nat): Flat
    requires levels == 4 || levels == 5
  {
    if ops == [] then f
    else
      var op := ops[|ops| - 1];
      Update(FlatRun(f, ops[..|ops| - 1], levels), op.top, PageOf(op.virt, levels), Value(op))
  }

  /** What the last operation that reaches the page left there. */
  function LastEffect(ops: seq<Op>, levels: nat, top: nat, page: Path, initial: Option<Mapping>): Option<Mapping>
    requires (levels == 4 || levels == 5) && page != []
  {
    if ops == [] then initial
    else
      var op := ops[|ops| - 1];
      if PageOf(op.virt, levels) == page && Shares(op.top, top, page) then Value(op)
      else LastEffect(ops[..|ops| - 1], levels, top, page, initial)
  }

  /** After any run, a page is mapped as its last operation said, whatever happened to other pages. */
  lemma {:induction false} RunLookup(f: Flat, ops: seq<Op>, levels: nat, top: nat, page: Path)
    requires (levels == 4 || levels == 5) && page != []
    ensures Lookup(FlatRun(f, ops, levels), top, page) ==
            LastEffect(ops, levels, top, page, Lookup(f, top, page))
  {
    if ops != [] {
      var op, rest := ops[|ops| - 1], ops[..|ops| - 1];
      RunLookup(f, rest, levels, top, page);
      LookupUpdate(FlatRun(f, rest, levels), op.top, PageOf(op.virt, levels), Value(op), top, page);
    }
  }

  /** The table memory of the kernel: every page map lives in it. */
  class PageTables {
    const levels: nat
    var tables: Store
    var pool: seq<nat>
    var kernelTop: Option<nat>
    ghost var roles: Roles
    ghost var tops: set<nat>
    ghost var flat: Flat

    ghost predicate Consistent()
      reads this
    {
      && (levels == 4 || levels == 5)
      && Owned(tables, roles, tops, levels)
      && Refines(tables, tops, levels, flat)
      && PoolOk(tables, pool)
    }

    ghost predicate Valid()
      reads this
    {
      && Consistent()
      && KernelComplete(tables, tops)
      && if kernelTop.Some? then kernelTop.value in tops
         else tops == {} && tables == map[] && flat == Flat(map[], map[])
    }

    constructor (levels: nat, pool: seq<nat>)
      requires levels == 4 || levels == 5
      requires PoolOk(map[], pool)
      ensures Valid() && this.levels == levels && this.pool == pool && kernelTop == None && roles == map[]
    {
      this.levels := levels;
      this.pool := pool;
      tables := map[];
      kernelTop := None;
      roles := map[];
      tops := {};
      flat := Flat(map[], map[]);
    }

    /** Follows entry `i` of table `t`; on a missing table allocates one, if asked to. */
    method NextLevel(t: nat, i: nat, allocate: bool) returns (next: Option<nat>)
      requires Consistent() && t in roles && t in tables && |roles[t].path| + 1 < levels && i < ENTRIES
      requires allocate && tables[t][i] == 0 ==>
                 pool != [] && (roles[t].path == [] && i >= KERNEL_HALF ==> tops == {t})
      modifies if allocate then {this} else {}
      ensures Consistent() && tops == old(tops) && flat == old(flat) && kernelTop == old(kernelTop)
      ensures forall x :: x in old(roles) ==> x in roles && x in tables && roles[x] == old(roles[x])
      ensures old(KernelComplete(tables, tops)) ==> KernelComplete(tables, tops)
      ensures next.Some? ==> next.value in roles && next.value in tables && roles[next.value] == Child(roles[t], i)
      ensures next.None? ==> !allocate && forall x :: x in roles ==> roles[x] != Child(roles[t], i)
      ensures |old(pool)| - 1 <= |pool|
      ensures t in tables && (allocate ==> tables[t][i] != 0)
      ensures forall j :: 0 <= j < ENTRIES && j != i ==> tables[t][j] == old(tables[t][j])
      ensures forall x :: x in roles && x !in old(roles) ==> roles[x] == Child(old(roles[t]), i)
      ensures !allocate ==> roles == old(roles)
    {
      hide Owned, Refines, PoolOk, KernelComplete, IsValid, Address;
      EntryLeads(tables, roles, tops, levels, t, i);
      if IsValid(tables[t][i]) {
        return Some(Address(tables[t][i]));
      }
      if !allocate {
        return None;
      }
      AddTableEffects(tables, roles, tops, levels, flat, pool, t, i);
      var a := pool[0];
      TableEntryFields(a);
      var entry := SetFlags(SetAddress(tables[t][i], a), DEFAULT_PTE_FLAGS);
      roles := AddRole(roles, t, i, a);
      tables := tables[t := tables[t][i := entry]][a := EmptyTable()];
      pool := pool[1..];
      next := Some(a);
    }

    /** One level of the walk for `virt`, from the table that the indices `p` lead to. */
    method Descend(t: nat, virt: nat, shift: nat, allocate: bool, ghost top: nat, ghost p: Path)
      returns (next: Option<nat>)
      requires Valid() && top in tops && t in roles && t in tables && roles[t] == RoleFor(top, p)
      requires |p| + 1 < levels && p + [Index(virt, shift)] <= LeafPath(PageOf(virt, levels))
      requires allocate ==> pool != []
      modifies if allocate then {this} else {}
      ensures Valid() && tops == old(tops) && flat == old(flat) && kernelTop == old(kernelTop)
      ensures |old(pool)| - 1 <= |pool|
      ensures Grown(old(roles), roles, levels, RoleFor(top, LeafPath(PageOf(virt, levels))))
      ensures !allocate ==> roles == old(roles)
      ensures if next.Some? then
                next.value in roles && next.value in tables && roles[next.value] ==
                  RoleFor(top, p + [Index(virt, shift)])
              else !allocate && !HasLeaf(roles, top, PageOf(virt, levels))
    {
      hide Owned, Refines, PoolOk, IsValid, Address, IsLarge, Index, PageOf;
      IndexBound(virt, shift);
      KernelEntry(tables, roles, tops, levels, t, Index(virt, shift));
      assert !IsLarge(tables[t][Index(virt, shift)]);
      ChildRoleFor(top, p, Index(virt, shift));
      next := NextLevel(t, Index(virt, shift), allocate);
      hide KernelComplete;
      if next.None? {
        MissingTable(tables, roles, tops, levels, top, p + [Index(virt, shift)], LeafPath(PageOf(virt, levels)));
      }
    }

    /** The table and index of the entry that maps `virt`, allocating missing tables if asked to. */
    method Virt2Pte(top: nat, virt: nat, allocate: bool) returns (r: Option<(nat, nat)>)
      requires Valid() && top in tops
      requires allocate ==> |pool| >= levels - 1
      modifies if allocate then {this} else {}
      ensures Valid() && tops == old(tops) && flat == old(flat) && kernelTop == old(kernelTop)
      ensures |old(pool)| - (levels - 1) <= |pool|
      ensures var page := PageOf(virt, levels);
              if r.Some? then
                && r.value.1 == LeafIndex(page) && r.value.0 in tables && r.value.0 in roles
                && roles[r.value.0] == RoleFor(top, LeafPath(page))
              else !allocate && !HasLeaf(roles, top, page)
      ensures r.Some? <==> HasLeaf(roles, top, PageOf(virt, levels))
      ensures Grown(old(roles), roles, levels, RoleFor(top, LeafPath(PageOf(virt, levels))))
    {
      hide Owned, Refines, PoolOk, KernelComplete, IsValid, Address, Index, Grown, HasLeaf;
      ghost var page := PageOf(virt, levels);
      ghost var leaf := RoleFor(top, LeafPath(page));
      TopTable(tables, roles, tops, levels, top);
      GrownSelf(roles, levels, leaf);
      var pml4 := Some(top);
      ghost var p: Path := [];
      if levels == 5 {
        pml4 := Descend(top, virt, 48, allocate, top, p);
        if pml4.None? {
          return None;
        }
        p := p + [Index(virt, 48)];
      }
      ghost var before39 := roles;
      var pml3 := Descend(pml4.value, virt, 39, allocate, top, p);
      GrownTwice(old(roles), before39, roles, levels, leaf);
      if pml3.None? {
        return None;
      }
      p := p + [Index(virt, 39)];
      ghost var before30 := roles;
      var pml2 := Descend(pml3.value, virt, 30, allocate, top, p);
      GrownTwice(old(roles), before30, roles, levels, leaf);
      if pml2.None? {
        return None;
      }
      p := p + [Index(virt, 30)];
      ghost var before21 := roles;
      var pml1 := Descend(pml2.value, virt, 21, allocate, top, p);
      GrownTwice(old(roles), before21, roles, levels, leaf);
      if pml1.None? {
        return None;
      }
      p := p + [Index(virt, 21)];
      assert p == LeafPath(page);
      LeafThere(roles, pml1.value, top, page);
      r := Some((pml1.value, Index(virt, 12)));
    }

    /** The physical address that `virt` translates to, or -1. */
    method Virt2Phys(top: nat, virt: nat) returns (phys: nat)
      requires Valid() && top in tops
      ensures match Lookup(flat, top, PageOf(virt, levels))
              case Some(m) => phys == m.frame + virt % 0x1000
              case None => phys == 0xffff_ffff_ffff_ffff
    {
      hide Owned, PoolOk, KernelComplete, IsValid, Address, Translate, Lookup;
      var entry := Virt2Pte(top, virt, false);
      ghost var page := PageOf(virt, levels);
      if entry.None? {
        TranslateNowhere(tables, roles, tops, levels, top, page);
        return INVALID;
      }
      TranslateAt(tables, roles, tops, levels, top, page, entry.value.0);
      var e := tables[entry.value.0][entry.value.1];
      if !IsValid(e) {
        return INVALID;
      }
      phys := Address(e) + virt % PAGE_SIZE;
    }

    /** Replaces one leaf entry, which updates one page of the flat map. */
    method WriteEntry(t: nat, i: nat, e: nat, ghost top: nat, ghost page: Path)
      requires Valid() && top in tops && ValidPage(page, levels)
      requires t in tables && t in roles && roles[t] == RoleFor(top, LeafPath(page)) && i == LeafIndex(page)
      modifies this`tables, this`flat
      ensures Valid()
      ensures flat == Update(old(flat), top, page, LeafMapping(e))
    {
      hide Owned, Refines, PoolOk, KernelComplete, LeafMapping, Update;
      WriteEffects(tables, roles, tops, levels, flat, pool, top, page, t, e);
      flat := Update(flat, top, page, LeafMapping(e));
      tables := tables[t := tables[t][i := e]];
    }

    /** Maps one 4 KiB page. */
    method InternalMap(top: nat, virt: nat, phys: nat, attribs: nat) returns (ok: bool)
      requires Valid() && top in tops && IsFrame(phys) && SmallPage(attribs) && |pool| >= levels - 1
      modifies this
      ensures Valid() && ok && tops == old(tops) && kernelTop == old(kernelTop)
      ensures |old(pool)| - (levels - 1) <= |pool|
      ensures flat == Update(old(flat), top, PageOf(virt, levels), Some(Mapping(phys, ToNativeFlags(attribs))))
      ensures Grown(old(roles), roles, levels, RoleFor(top, LeafPath(PageOf(virt, levels))))
      ensures HasLeaf(roles, top, PageOf(virt, levels))
    {
      hide Owned, Refines, PoolOk, KernelComplete, IsValid, Address, Flags, Update, Lookup, ToNativeFlags;
      var entry := Virt2Pte(top, virt, true);
      if entry.None? {
        return false;
      }
      LeafEntryFields(phys, attribs);
      var e := SetFlags(SetAddress(0, phys), ToNativeFlags(attribs));
      WriteEntry(entry.value.0, entry.value.1, e, top, PageOf(virt, levels));
      ok := true;
    }

    /**
     Unmaps one 4 KiB page; reports failure exactly when its leaf table does not exist, and the page
     was unmapped then.
     */
    method InternalUnmap(top: nat, virt: nat) returns (ok: bool)
      requires Valid() && top in tops
      modifies this`tables, this`flat
      ensures Valid() && tops == old(tops) && kernelTop == old(kernelTop)
      ensures flat == Update(old(flat), top, PageOf(virt, levels), None)
      ensures ok <==> HasLeaf(roles, top, PageOf(virt, levels))
      ensures !ok ==> Lookup(old(flat), top, PageOf(virt, levels)) == None
    {
      hide Owned, PoolOk, KernelComplete, IsValid, Address, Flags, Translate;
      var entry := Virt2Pte(top, virt, false);
      if entry.None? {
        TranslateNowhere(tables, roles, tops, levels, top, PageOf(virt, levels));
        UnmapNothing(flat, top, PageOf(virt, levels));
        return false;
      }
      hide Refines, Update;
      EmptyMapping(0);
      WriteEntry(entry.value.0, entry.value.1, 0, top, PageOf(virt, levels));
      ok := true;
    }

    method Map(top: nat, virt: nat, phys: nat, attribs: nat) returns (ok: bool)
      requires Valid() && top in tops && IsFrame(phys) && SmallPage(attribs) && |pool| >= levels - 1
      modifies this
      ensures Valid() && ok && tops == old(tops) && kernelTop == old(kernelTop)
      ensures |old(pool)| - (levels - 1) <= |pool|
      ensures flat == Update(old(flat), top, PageOf(virt, levels), Some(Mapping(phys, ToNativeFlags(attribs))))
      ensures Grown(old(roles), roles, levels, RoleFor(top, LeafPath(PageOf(virt, levels))))
      ensures HasLeaf(roles, top, PageOf(virt, levels))
    {
      ok := InternalMap(top, virt, phys, attribs);
    }

    method Unmap(top: nat, virt: nat) returns (ok: bool)
      requires Valid() && top in tops
      modifies this`tables, this`flat
      ensures Valid() && tops == old(tops) && kernelTop == old(kernelTop)
      ensures flat == Update(old(flat), top, PageOf(virt, levels), None)
      ensures ok <==> HasLeaf(roles, top, PageOf(virt, levels))
      ensures !ok ==> Lookup(old(flat), top, PageOf(virt, levels)) == None
    {
      ok := InternalUnmap(top, virt);
    }

    /** Maps the pages of a range one by one. */
    method MapRange(top: nat, virt: nat, phys: nat, size: nat, attribs: nat) returns (ok: bool)
      requires Valid() && top in tops && SmallPage(attribs)
      requires forall k :: 0 <= k < PageCount(size) ==> IsFrame(phys + k * PAGE_SIZE)
      requires |pool| >= 4 * PageCount(size)
      modifies this
      ensures Valid() && ok && tops == old(tops) && kernelTop == old(kernelTop)
      ensures |old(pool)| - 4 * PageCount(size) <= |pool|
      ensures flat == MapPages(old(flat), top, virt, phys, PageCount(size), ToNativeFlags(attribs), levels)
    {
      hide Owned, Refines, PoolOk, KernelComplete, Update, ToNativeFlags;
      ghost var k := 0;
      var i := 0;
      while i < size
        invariant Valid() && tops == old(tops) && kernelTop == old(kernelTop)
        invariant i == k * PAGE_SIZE && k <= PageCount(size)
        invariant |old(pool)| - 4 * k <= |pool|
        invariant flat == MapPages(old(flat), top, virt, phys, k, ToNativeFlags(attribs), levels)
        decreases size - i
      {
        var mapped := Map(top, virt + i, phys + i, attribs);
        i := i + PAGE_SIZE;
        k := k + 1;
      }
      ok := true;
    }

    /**
     Unmaps the pages of a range one by one, and gives up at the first page without a leaf table:
     it succeeds exactly when there is no such page, and `done` pages are unmapped.
     */
    method UnmapRange(top: nat, virt: nat, size: nat) returns (ok: bool, ghost done: nat)
      requires Valid() && top in tops
      modifies this`tables, this`flat
      ensures Valid() && tops == old(tops) && kernelTop == old(kernelTop)
      ensures done <= PageCount(size) && flat == UnmapPages(old(flat), top, virt, done, levels)
      ensures ok <==> forall k: nat :: k < PageCount(size) ==> HasLeaf(roles, top, PageOf(virt + k * PAGE_SIZE, levels))
      ensures ok ==> done == PageCount(size)
      ensures forall k: nat :: k + 1 < done ==> HasLeaf(roles, top, PageOf(virt + k * PAGE_SIZE, levels))
      ensures !ok ==> 1 <= done && !HasLeaf(roles, top, PageOf(virt + (done - 1) * PAGE_SIZE, levels))
      ensures UserRange(virt, PageCount(size), levels) ==>
                (AllUnmapped(flat, top, virt, PageCount(size), levels) <==>
                 LeavesBeforeMapped(old(flat), roles, top, virt, PageCount(size), levels))
    {
      hide Owned, Refines, PoolOk, KernelComplete, Update, Lookup, PageOf, HasLeaf, UserRange, AllUnmapped,
           LeavesBeforeMapped;
      ghost var n := PageCount(size);
      forall k: nat | k < n && Lookup(flat, top, PageOf(virt + k * PAGE_SIZE, levels)) != None
        ensures HasLeaf(roles, top, PageOf(virt + k * PAGE_SIZE, levels))
      {
        MappedHasLeaf(top, PageOf(virt + k * PAGE_SIZE, levels));
      }
      done := 0;
      var i := 0;
      while i < size
        invariant Valid() && tops == old(tops) && kernelTop == old(kernelTop)
        invariant i == done * PAGE_SIZE && done <= PageCount(size)
        invariant flat == UnmapPages(old(flat), top, virt, done, levels)
        invariant forall k: nat :: k < done ==> HasLeaf(roles, top, PageOf(virt + k * PAGE_SIZE, levels))
        decreases size - i
      {
        ok := Unmap(top, virt + i);
        done := done + 1;
        if !ok {
          if UserRange(virt, n, levels) {
            UnmapsAllIff(old(flat), roles, top, virt, n, done, levels);
          }
          return;
        }
        i := i + PAGE_SIZE;
      }
      if UserRange(virt, n, levels) {
        UnmapsAllIff(old(flat), roles, top, virt, n, done, levels);
      }
      ok := true;
    }

    /**
     Creates a page map. The first one gets its own tables for the whole kernel half; a later
     one copies the kernel-half entries of the first, and so shares those tables.
     */
    method NewPageMap() returns (top: nat)
      requires Valid()
      requires |pool| >= if kernelTop.Some? then 1 else 1 + (ENTRIES - KERNEL_HALF)
      modifies this
      ensures Valid() && top !in old(tops) && tops == old(tops) + {top}
      ensures kernelTop == if old(kernelTop).Some? then old(kernelTop) else Some(top)
      ensures flat == old(flat).(lower := old(flat).lower[top := map[]])
      ensures |old(pool)| - (1 + ENTRIES - KERNEL_HALF) <= |pool|
      ensures old(kernelTop).Some? ==> |pool| == |old(pool)| - 1
      ensures GrownAtTop(old(roles), roles)
    {
      hide Owned, Refines, PoolOk, KernelComplete, GrownAtTop;
      top := pool[0];
      NewTopGrown(tables, roles, tops, levels, pool);
      NewTopEffects(tables, roles, tops, levels, flat, pool, kernelTop);
      var entries := NewTop(tables, kernelTop);
      tables := tables[top := entries];
      roles := AddTopRole(roles, top);
      tops := tops + {top};
      flat := flat.(lower := flat.lower[top := map[]]);
      pool := pool[1..];
      if kernelTop.Some? {
        return;
      }
      ghost var before := roles;
      FillKernelHalf(top);
      GrownAtTopTwice(old(roles), before, roles);
      kernelTop := Some(top);
    }

    /** Allocates the tables of every kernel-half slot of the first top level. */
    method FillKernelHalf(top: nat)
      requires Consistent() && tops == {top} && |pool| >= ENTRIES - KERNEL_HALF
      modifies this
      ensures Consistent() && tops == old(tops) && flat == old(flat) && kernelTop == old(kernelTop)
      ensures KernelComplete(tables, tops)
      ensures |pool| >= |old(pool)| - (ENTRIES - KERNEL_HALF)
      ensures GrownAtTop(old(roles), roles)
    {
      hide Owned, Refines, PoolOk, KernelComplete, GrownAtTop, IsValid, Address;
      TopTable(tables, roles, tops, levels, top);
      GrownAtTopSelf(roles);
      for i := KERNEL_HALF to ENTRIES
        invariant Consistent() && tops == old(tops) && flat == old(flat) && kernelTop == old(kernelTop)
        invariant top in roles && top in tables && roles[top] == RoleFor(top, [])
        invariant forall j :: KERNEL_HALF <= j < i ==> tables[top][j] != 0
        invariant GrownAtTop(old(roles), roles)
        invariant |pool| >= |old(pool)| - (i - KERNEL_HALF)
      {
        ghost var before := roles;
        var next := NextLevel(top, i, true);
        GrownAtTopStep(old(roles), before, roles, top, i);
      }
      KernelFilled(tables, top);
    }

    /**
     Frees table `t` and the tables below its entries start..end, `level` levels deep.
     At level 0 the pointer is a data frame and nothing is freed.
     */
    method DestroyLevel(t: nat, start: nat, end: nat, level: nat, ghost s0: Store, ghost top: nat, ghost p: Path)
      returns (freed: seq<nat>)
      requires Owned(s0, roles, tops, levels) && top in tops && start <= end <= ENTRIES
      requires level > 0 ==>
                 && t in roles && roles[t] == RoleFor(top, p) && roles[t].space == Private(top) && |p| + level == levels
                 && (p == [] ==> end <= KERNEL_HALF)
                 && Intact(tables, s0, {t} + UnderSet(roles, top, p, start, end))
      modifies this`tables
      ensures level == 0 ==> freed == [] && tables == old(tables)
      ensures level > 0 ==>
                && Lists(freed, {t} + UnderSet(roles, top, p, start, end))
                && tables == old(tables) - ({t} + UnderSet(roles, top, p, start, end))
      decreases level, 2
    {
      if level == 0 {
        return [];
      }
      hide Owned, IsValid, Address, RoleFor, UnderSet, Under, Lists, Intact;
      ghost var below := UnderSet(roles, top, p, start, end);
      freed := DestroyEntries(t, start, end, level, s0, top, p);
      RolePath(top, p);
      UnderSplit(roles, top, p, start, end, end + 1, t);
      ListsSmall(t);
      ListsAppend(freed, below, [t], {t});
      assert below + {t} == {t} + below;
      RemoveTwice(old(tables), below, {t});
      freed := freed + [t];
      tables := tables - {t};
    }

    /** The loop over the entries start..end of table `t`. */
    method DestroyEntries(t: nat, start: nat, end: nat, level: nat, ghost s0: Store, ghost top: nat, ghost p: Path)
      returns (freed: seq<nat>)
      requires Owned(s0, roles, tops, levels) && top in tops && start <= end <= ENTRIES && level > 0
      requires t in roles && roles[t] == RoleFor(top, p) && roles[t].space == Private(top) && |p| + level == levels
      requires p == [] ==> end <= KERNEL_HALF
      requires Intact(tables, s0, {t} + UnderSet(roles, top, p, start, end))
      modifies this`tables
      ensures Lists(freed, UnderSet(roles, top, p, start, end))
      ensures tables == old(tables) - UnderSet(roles, top, p, start, end)
      decreases level, 1
    {
      hide Owned, IsValid, Address, RoleFor, UnderSet, Under, Lists, Intact;
      freed := [];
      UnderEmpty(roles, top, p, start);
      ListsSmall(t);
      RolePath(top, p);
      for i := start to end
        invariant Lists(freed, UnderSet(roles, top, p, start, i))
        invariant tables == old(tables) - UnderSet(roles, top, p, start, i)
      {
        UnderSplit(roles, top, p, start, i, end, t);
        RemoveTwice(old(tables), UnderSet(roles, top, p, start, i), UnderSet(roles, top, p, i, i + 1));
        IntactRest(old(tables), s0, {t} + UnderSet(roles, top, p, start, end),
                   UnderSet(roles, top, p, start, i), {t} + UnderSet(roles, top, p, i, i + 1));
        var below := DestroyEntry(t, i, level, s0, top, p);
        ListsAppend(freed, UnderSet(roles, top, p, start, i), below, UnderSet(roles, top, p, i, i + 1));
        freed := freed + below;
      }
    }

    /** Frees what one entry of table `t` leads to; `next` is a data frame when `t` is a leaf table. */
    method DestroyEntry(t: nat, i: nat, level: nat, ghost s0: Store, ghost top: nat, ghost p: Path)
      returns (freed: seq<nat>)
      requires Owned(s0, roles, tops, levels) && top in tops && i < ENTRIES && level > 0
      requires t in roles && roles[t] == RoleFor(top, p) && roles[t].space == Private(top) && |p| + level == levels
      requires p == [] ==> i < KERNEL_HALF
      requires Intact(tables, s0, {t} + UnderSet(roles, top, p, i, i + 1))
      modifies this`tables
      ensures Lists(freed, UnderSet(roles, top, p, i, i + 1))
      ensures tables == old(tables) - UnderSet(roles, top, p, i, i + 1)
      decreases level, 0
    {
      hide Owned, IsValid, Address, RoleFor, UnderSet, Under, Lists;
      RolePath(top, p);
      ListsSmall(t);
      ChildRoleFor(top, p, i);
      UnderEmpty(roles, top, p, i);
      if level == 1 {
        UnderLeaf(s0, roles, tops, levels, top, p, i, i);
      } else {
        EntryLeads(s0, roles, tops, levels, t, i);
      }
      if !IsValid(tables[t][i]) {
        if level > 1 {
          UnderGap(s0, roles, tops, levels, top, p, i, i);
        }
        return [];
      }
      var next := Address(tables[t][i]);
      if level > 1 {
        PrivateChild(top, p, i);
        UnderStep(s0, roles, tops, levels, top, p, i, i, next);
      }
      freed := DestroyLevel(next, 0, ENTRIES, level - 1, s0, top, p + [i]);
      if level > 1 {
        assert {next} + UnderSet(roles, top, p + [i], 0, ENTRIES) == UnderSet(roles, top, p, i, i + 1);
      }
    }

    /**
     Destroys a page map other than the kernel's: exactly its private tables are freed, each
     once; no table of the shared half, no other page map and no data frame is touched.
     */
    method DestroyPageMap(top: nat) returns (freed: seq<nat>)
      requires Valid() && kernelTop.Some? && top in tops && top != kernelTop.value
      modifies this
      ensures Valid() && tops == old(tops) - {top} && kernelTop == old(kernelTop)
      ensures Lists(freed, PrivateTables(old(roles), top))
      ensures tables == old(tables) - PrivateTables(old(roles), top)
      ensures flat == old(flat).(lower := old(flat).lower - {top})
      ensures pool == old(pool) + freed
    {
      hide Owned, Refines, PoolOk, KernelComplete, UnderSet, Lists, PrivateTables, Intact;
      TopTable(tables, roles, tops, levels, top);
      UnderTop(tables, roles, tops, levels, top);
      PrivatePresent(tables, roles, tops, levels, top);
      RemoveEffects(tables, roles, tops, levels, flat, pool, top, kernelTop.value);
      freed := DestroyLevel(top, 0, KERNEL_HALF, levels, tables, top, []);
      ghost var dead := PrivateTables(roles, top);
      PoolReturned(old(tables), roles, pool, dead, freed, tops, levels);
      roles := roles - dead;
      tops := tops - {top};
      flat := flat.(lower := flat.lower - {top});
      pool := pool + freed;
    }

    /** Performs a list of map and unmap calls on existing page maps. */
    method Execute(ops: seq<Op>)
      requires Valid() && |pool| >= 4 * |ops|
      requires forall k :: 0 <= k < |ops| ==> ops[k].top in tops && (ops[k].MapOp? ==>
                                                                     IsFrame(ops[k].phys) && SmallPage(ops[k].attribs))
      modifies this
      ensures Valid() && tops == old(tops) && kernelTop == old(kernelTop)
      ensures flat == FlatRun(old(flat), ops, levels)
    {
      hide Owned, Refines, PoolOk, KernelComplete, Update, ToNativeFlags;
      for k := 0 to |ops|
        invariant Valid() && tops == old(tops) && kernelTop == old(kernelTop)
        invariant |pool| >= 4 * (|ops| - k)
        invariant flat == FlatRun(old(flat), ops[..k], levels)
      {
        assert ops[..k + 1][..k] == ops[..k];
        match ops[k]
        case MapOp(top, virt, phys, attribs) =>
          var ok := Map(top, virt, phys, attribs);
        case UnmapOp(top, virt) =>
          var ok := Unmap(top, virt);
      }
      assert ops[..|ops|] == ops;
    }

    /** A mapped page has a leaf table, so a fully mapped range is unmapped completely. */
    lemma MappedHasLeaf(top: nat, page: Path)
      requires Valid() && top in tops && ValidPage(page, levels) && Lookup(flat, top, page) != None
      ensures HasLeaf(roles, top, page)
    {
      hide Owned, PoolOk, KernelComplete, Translate, Lookup;
      assert Translate(tables, top, page) == Lookup(flat, top, page);
      if !HasLeaf(roles, top, page) {
        TranslateNowhere(tables, roles, tops, levels, top, page);
      }
    }

    /** All page maps translate every kernel page alike, at any time. */
    lemma SharedKernelHalf(top1: nat, top2: nat, page: Path)
      requires Valid() && top1 in tops && top2 in tops && ValidPage(page, levels) && page[0] >= KERNEL_HALF
      ensures Translate(tables, top1, page) == Translate(tables, top2, page)
    {
      hide Owned, PoolOk, KernelComplete, Translate;
      assert Translate(tables, top1, page) == Lookup(flat, top1, page);
      assert Translate(tables, top2, page) == Lookup(flat, top2, page);
    }
  }

  /** Operations through one page map never show in the lower half of another. */
  lemma {:induction false} PrivateLowerHalf(f: Flat, ops: seq<Op>, levels: nat, top: nat, page: Path)
    requires (levels == 4 || levels == 5) && page != [] && page[0] < KERNEL_HALF
    requires forall k :: 0 <= k < |ops| ==> ops[k].top != top
    ensures Lookup(FlatRun(f, ops, levels), top, page) == Lookup(f, top, page)
  {
    hide PageOf;
    if ops != [] {
      var op, rest := ops[|ops| - 1], ops[..|ops| - 1];
      PrivateLowerHalf(f, rest, levels, top, page);
      LookupUpdate(FlatRun(f, rest, levels), op.top, PageOf(op.virt, levels), Value(op), top, page);
    }
  }

  lemma FramePool(n: nat)
    requires n < 0x1_0000_0000
    ensures PoolOk(map[], seq(n, i => (i + 1) * PAGE_SIZE))
  {
  }

  /** The kernel's page map and a first process's page map, from nothing but free frames. */
  method Boot(levels: nat) returns (mmu: PageTables, kernel: nat, user: nat)
    requires levels == 4 || levels == 5
    ensures fresh(mmu) && mmu.Valid() && mmu.levels == levels
    ensures kernel != user && mmu.tops == {kernel, user} && mmu.kernelTop == Some(kernel)
    ensures mmu.flat == Flat(map[kernel := map[], user := map[]], map[])
    ensures |mmu.pool| >= 4 && forall page: Path :: |page| == levels ==> !HasLeaf(mmu.roles, user, page)
  {
    hide Owned, Refines, PoolOk, KernelComplete, GrownAtTop, HasLeaf;
    FramePool(1024);
    mmu := new PageTables(levels, seq(1024, i => (i + 1) * PAGE_SIZE));
    kernel := mmu.NewPageMap();
    ghost var before := mmu.roles;
    user := mmu.NewPageMap();
    GrownAtTopTwice(map[], before, mmu.roles);
    forall page: Path | |page| == levels
      ensures !HasLeaf(mmu.roles, user, page)
    {
      NoLeafAtTop(mmu.roles, user, page);
    }
  }

  lemma NoLeafAtTop(r: Roles, top: nat, page: Path)
    requires GrownAtTop(map[], r) && |page| > 2
    ensures !HasLeaf(r, top, page)
  {
    RolePath(top, LeafPath(page));
  }

  /**
   With only the page at 2 MiB mapped, unmapping everything up to and including it stops at address
   zero and keeps it.
   */
  method UnmapStopsExample(levels: nat, phys: nat, attribs: nat) returns (mmu: PageTables, user: nat, ok: bool)
    requires (levels == 4 || levels == 5) && IsFrame(phys) && SmallPage(attribs)
    ensures mmu.Valid() && mmu.levels == levels && !ok
    ensures Lookup(mmu.flat, user, PageOf(0x20_0000, levels)) == Some(Mapping(phys, ToNativeFlags(attribs)))
  {
    hide Owned, Refines, PoolOk, KernelComplete, HasLeaf, Grown, PageOf, Lookup, Update, ToNativeFlags;
    var kernel;
    mmu, kernel, user := Boot(levels);
    ghost var f, before := mmu.flat, mmu.roles;
    var mapped := mmu.Map(user, 0x20_0000, phys, attribs);
    LookupUpdate(f, user, PageOf(0x20_0000, levels), Some(Mapping(phys, ToNativeFlags(attribs))), user,
                 PageOf(0x20_0000, levels));
    LeafOfTwoMegabytes(levels);
    RolePath(user, LeafPath(PageOf(0, levels)));
    RolePath(user, LeafPath(PageOf(0x20_0000, levels)));
    GrownLeaves(before, mmu.roles, levels, user, PageOf(0x20_0000, levels), user, PageOf(0, levels));
    ghost var done;
    f := mmu.flat;
    ok, done := mmu.UnmapRange(user, 0, 0x20_1000);
    assert PageOf(0 + 0 * PAGE_SIZE, levels) == PageOf(0, levels);
    OnlyFirstUnmapped(f, user, done, levels);
  }

  lemma OnlyFirstUnmapped(f: Flat, top: nat, done: nat, levels: nat)
    requires (levels == 4 || levels == 5) && done <= 1
    ensures Lookup(UnmapPages(f, top, 0, done, levels), top, PageOf(0x20_0000, levels)) ==
            Lookup(f, top, PageOf(0x20_0000, levels))
  {
    hide Lookup, Update, PageOf;
    UnmapPagesAt(f, top, 0, done, levels, top, PageOf(0x20_0000, levels));
    LeafOfTwoMegabytes(levels);
  }
}
