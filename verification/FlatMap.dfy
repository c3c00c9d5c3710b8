/** The flat view of page tables, and how each kind of table write moves it. */
module FlatMaps {
  import opened Wrappers
  import opened Bits
  import opened PageEntry
  import opened PageWalk
  import opened PageTops

  const INVALID: nat := 0xffff_ffff_ffff_ffff

  // ----- The flat map -----

  /** One private map for each page map, and one map that all share for the upper half. */
  datatype Flat = Flat(lower: map<nat, map<Path, Mapping>>, kernel: map<Path, Mapping>)

  function MapFor(f: Flat, top: nat, page: Path): map<Path, Mapping>
    requires page != []
  {
    if page[0] >= KERNEL_HALF then f.kernel else if top in f.lower then f.lower[top] else map[]
  }

  function Lookup(f: Flat, top: nat, page: Path): Option<Mapping>
    requires page != []
  {
    var m := MapFor(f, top, page);
    if page in m then Some(m[page]) else None
  }

  function Assign(m: map<Path, Mapping>, page: Path, v: Option<Mapping>): map<Path, Mapping> {
    if v.Some? then m[page := v.value] else m - {page}
  }

  /** Maps `page` to `v`, or unmaps it. */
  function Update(f: Flat, top: nat, page: Path, v: Option<Mapping>): Flat
    requires page != []
  {
    var m := Assign(MapFor(f, top, page), page, v);
    if page[0] >= KERNEL_HALF then f.(kernel := m) else f.(lower := f.lower[top := m])
  }

  /** Two page maps see the same entry for this page: they are one, or it is a kernel page. */
  predicate Shares(top1: nat, top2: nat, page: Path)
    requires page != []
  {
    top1 == top2 || page[0] >= KERNEL_HALF
  }

  lemma LookupUpdate(f: Flat, top: nat, page: Path, v: Option<Mapping>, top2: nat, page2: Path)
    requires page != [] && page2 != []
    ensures Lookup(Update(f, top, page, v), top2, page2) ==
            if page2 == page && Shares(top, top2, page) then v else Lookup(f, top2, page2)
  {
  }

  /** The tables say exactly what the flat map says, for every page of every page map. */
  ghost predicate Refines(s: Store, tops: set<nat>, levels: nat, f: Flat) {
    && f.lower.Keys == tops
    && forall top, page :: top in tops && ValidPage(page, levels) ==> Translate(s, top, page) == Lookup(f, top, page)
  }

  lemma SplitPage(page1: Path, page2: Path)
    requires page1 != [] && page2 != []
    ensures page1 == page2 <==> LeafPath(page1) == LeafPath(page2) && LeafIndex(page1) == LeafIndex(page2)
  {
    assert page1 == LeafPath(page1) + [LeafIndex(page1)];
    assert page2 == LeafPath(page2) + [LeafIndex(page2)];
  }

  /** Writing the leaf entry of a page updates the flat map at that page. */
  lemma WriteRefines(s: Store, r: Roles, tops: set<nat>, levels: nat, f: Flat, top: nat, page: Path, t: nat, e: nat)
    requires Owned(s, r, tops, levels) && Refines(s, tops, levels, f)
    requires top in tops && ValidPage(page, levels)
    requires t in r && t in s && r[t] == RoleFor(top, LeafPath(page))
    ensures Refines(WriteLeaf(s, t, LeafIndex(page), e), tops, levels, Update(f, top, page, LeafMapping(e)))
  {
    assert levels > 1;
    hide Owned, Translate;
    var s', f' := WriteLeaf(s, t, LeafIndex(page), e), Update(f, top, page, LeafMapping(e));
    forall top2, page2 | top2 in tops && ValidPage(page2, levels)
      ensures Translate(s', top2, page2) == Lookup(f', top2, page2)
    {
      WriteLeafView(s, r, tops, levels, t, LeafIndex(page), e, top2, page2);
      LookupUpdate(f, top, page, LeafMapping(e), top2, page2);
      SplitPage(page, page2);
      RolesShared(top, top2, LeafPath(page));
    }
  }

  lemma AddTableRefines(s: Store, r: Roles, tops: set<nat>, levels: nat, f: Flat, t: nat, i: nat, a: nat)
    requires Owned(s, r, tops, levels) && CanAdd(s, r, tops, levels, t, i, a) && Refines(s, tops, levels, f)
    ensures Refines(AddTable(s, t, i, a), tops, levels, f)
  {
    hide Owned, Translate, CanAdd, AddTable;
    assert t in s && i < ENTRIES by {
      CanAddFacts(s, r, tops, levels, t, i, a);
    }
    forall top, page | top in tops && ValidPage(page, levels)
      ensures Translate(AddTable(s, t, i, a), top, page) == Lookup(f, top, page)
    {
      AddTableView(s, r, tops, levels, t, i, a, top, page);
    }
  }

  lemma CanAddFacts(s: Store, r: Roles, tops: set<nat>, levels: nat, t: nat, i: nat, a: nat)
    requires CanAdd(s, r, tops, levels, t, i, a)
    ensures t in s && t in r && i < ENTRIES
  {
  }

  // ----- Virtual addresses -----

  /** One nine-bit table index of a virtual address. */
  function Index(virt: nat, shift: nat): nat {
    And(Shr(virt, shift), 0x1ff)
  }

  lemma IndexBound(virt: nat, shift: nat)
    ensures Index(virt, shift) < ENTRIES
    ensures Index(virt, shift) == Low(Shr(virt, shift), 9)
  {
    Pow2Values();
    AndMask(Shr(virt, shift), 9);
    Split(Shr(virt, shift), 9);
  }

  /** The page a virtual address lies in, as the indices of the walk. */
  function PageOf(virt: nat, levels: nat): (page: Path)
    requires levels == 4 || levels == 5
    ensures ValidPage(page, levels)
  {
    IndexBound(virt, 48);
    IndexBound(virt, 39);
    IndexBound(virt, 30);
    IndexBound(virt, 21);
    IndexBound(virt, 12);
    if levels == 5 then [Index(virt, 48), Index(virt, 39), Index(virt, 30), Index(virt, 21), Index(virt, 12)]
    else [Index(virt, 39), Index(virt, 30), Index(virt, 21), Index(virt, 12)]
  }

  ghost predicate PoolOk(s: Store, pool: seq<nat>) {
    && (forall k :: 0 <= k < |pool| ==> pool[k] !in s && pool[k] != 0 && IsFrame(pool[k]))
    && (forall k, l :: 0 <= k < l < |pool| ==> pool[k] != pool[l])
  }

  /** An entry leads to the child table, or there is no such table and the entry is empty. */
  lemma EntryLeads(s: Store, r: Roles, tops: set<nat>, levels: nat, t: nat, i: nat)
    requires Owned(s, r, tops, levels) && t in r && t in s && |r[t].path| + 1 < levels && i < ENTRIES
    ensures r.Keys == s.Keys
    ensures IsValid(s[t][i]) <==> s[t][i] != 0
    ensures if IsValid(s[t][i]) then
              Address(s[t][i]) in r && Address(s[t][i]) in s && r[Address(s[t][i])] == Child(r[t], i)
            else forall x :: x in r ==> r[x] != Child(r[t], i)
  {
    EntryValid(s, r, tops, levels, t, i);
    assert Linked(s, r, t, i);
  }

  lemma AddTableEffects(s: Store, r: Roles, tops: set<nat>, levels: nat, f: Flat, pool: seq<nat>, t: nat, i: nat)
    requires Owned(s, r, tops, levels) && Refines(s, tops, levels, f) && PoolOk(s, pool) && pool != []
    requires t in r && t in s && |r[t].path| + 1 < levels && i < ENTRIES && s[t][i] == 0
    requires r[t].path == [] && i >= KERNEL_HALF ==> tops == {t}
    ensures IsFrame(pool[0]) && pool[0] !in s && pool[0] !in r
    ensures Owned(AddTable(s, t, i, pool[0]), AddRole(r, t, i, pool[0]), tops, levels)
    ensures Refines(AddTable(s, t, i, pool[0]), tops, levels, f)
    ensures PoolOk(AddTable(s, t, i, pool[0]), pool[1..])
    ensures KernelComplete(s, tops) ==> KernelComplete(AddTable(s, t, i, pool[0]), tops)
    ensures AddTable(s, t, i, pool[0])[t][i] != 0
  {
    var a := pool[0];
    PoolHead(s, r, tops, levels, pool, t, i);
    KernelKept(s, tops, t, i, a);
    hide Owned, Refines, PoolOk, KernelComplete;
    AddTableOwned(s, r, tops, levels, t, i, a);
    AddTableRefines(s, r, tops, levels, f, t, i, a);
    TableEntryFields(a);
  }

  lemma OwnedKeys(s: Store, r: Roles, tops: set<nat>, levels: nat)
    requires Owned(s, r, tops, levels)
    ensures r.Keys == s.Keys
  {
  }

  lemma PoolHead(s: Store, r: Roles, tops: set<nat>, levels: nat, pool: seq<nat>, t: nat, i: nat)
    requires Owned(s, r, tops, levels) && PoolOk(s, pool) && pool != []
    requires t in s && i < ENTRIES
    ensures IsFrame(pool[0]) && pool[0] != 0 && pool[0] !in s && pool[0] !in r
    ensures PoolOk(AddTable(s, t, i, pool[0]), pool[1..])
  {
    hide Owned, IsFrame, TableEntry, EmptyTable;
    OwnedKeys(s, r, tops, levels);
    var n := AddTable(s, t, i, pool[0]);
    assert n.Keys == s.Keys + {pool[0]};
  }

  lemma KernelKept(s: Store, tops: set<nat>, t: nat, i: nat, a: nat)
    requires t in s && i < ENTRIES && a !in s && IsFrame(a) && a !in tops
    ensures KernelComplete(s, tops) ==> KernelComplete(AddTable(s, t, i, a), tops)
    ensures AddTable(s, t, i, a)[t][i] != 0
  {
    TableEntryFields(a);
    assert TableEntry(a) != 0;
  }

  /** No entry above the leaves is a large page, and complete kernel halves have no gaps. */
  lemma KernelEntry(s: Store, r: Roles, tops: set<nat>, levels: nat, t: nat, i: nat)
    requires Owned(s, r, tops, levels) && KernelComplete(s, tops)
    requires t in r && t in s && |r[t].path| + 1 < levels && i < ENTRIES
    ensures !IsLarge(s[t][i])
    ensures r[t].path == [] && i >= KERNEL_HALF ==> s[t][i] != 0
  {
    EntryValid(s, r, tops, levels, t, i);
    ShapeOf(s, r, tops, levels, t);
  }

  lemma NewTopEffects(s: Store, r: Roles, tops: set<nat>, levels: nat, f: Flat, pool: seq<nat>, model: Option<nat>)
    requires Owned(s, r, tops, levels) && Refines(s, tops, levels, f) && PoolOk(s, pool) && pool != []
    requires KernelComplete(s, tops)
    requires if model.Some? then model.value in tops else tops == {} && s == map[] && f == Flat(map[], map[])
    ensures var top := pool[0];
            && top !in tops && (model.Some? ==> model.value in s)
            && Owned(AddTop(s, top, model), AddTopRole(r, top), tops + {top}, levels)
            && Refines(AddTop(s, top, model), tops + {top}, levels, f.(lower := f.lower[top := map[]]))
            && PoolOk(AddTop(s, top, model), pool[1..])
            && (model.Some? ==> KernelComplete(AddTop(s, top, model), tops + {top}))
  {
    var top := pool[0];
    NewTopKeeps(s, r, tops, levels, pool, model);
    hide Owned, Refines, PoolOk, KernelComplete;
    AddTopOwned(s, r, tops, levels, top, model);
    NewTopRefines(s, r, tops, levels, f, top, model);
  }

  lemma NewTopKeeps(s: Store, r: Roles, tops: set<nat>, levels: nat, pool: seq<nat>, model: Option<nat>)
    requires Owned(s, r, tops, levels) && PoolOk(s, pool) && pool != [] && KernelComplete(s, tops)
    requires if model.Some? then model.value in tops else tops == {} && s == map[]
    ensures var top := pool[0];
            && top !in tops && levels > 1 && CanAddTop(s, tops, top, model)
            && PoolOk(AddTop(s, top, model), pool[1..])
            && (model.Some? ==> KernelComplete(AddTop(s, top, model), tops + {top}))
  {
    hide RoleShape, Linked;
  }

  lemma NewTopRefines(s: Store, r: Roles, tops: set<nat>, levels: nat, f: Flat, top: nat, model: Option<nat>)
    requires Owned(s, r, tops, levels) && Refines(s, tops, levels, f) && CanAddTop(s, tops, top, model)
    requires top !in tops && (model.None? ==> f == Flat(map[], map[]))
    ensures Refines(AddTop(s, top, model), tops + {top}, levels, f.(lower := f.lower[top := map[]]))
  {
    hide Owned, Translate, AddTop;
    var f' := f.(lower := f.lower[top := map[]]);
    forall t, page | t in tops + {top} && ValidPage(page, levels)
      ensures Translate(AddTop(s, top, model), t, page) == Lookup(f', t, page)
    {
      AddTopView(s, r, tops, levels, top, model, t, page);
    }
  }

  lemma WriteEffects(s: Store, r: Roles, tops: set<nat>, levels: nat, f: Flat, pool: seq<nat>,
                     top: nat, page: Path, t: nat, e: nat)
    requires Owned(s, r, tops, levels) && Refines(s, tops, levels, f) && PoolOk(s, pool) && KernelComplete(s, tops)
    requires top in tops && ValidPage(page, levels)
    requires t in r && t in s && r[t] == RoleFor(top, LeafPath(page))
    ensures var s' := WriteLeaf(s, t, LeafIndex(page), e);
            && Owned(s', r, tops, levels) && PoolOk(s', pool) && KernelComplete(s', tops)
            && Refines(s', tops, levels, Update(f, top, page, LeafMapping(e)))
  {
    LeafIsNoTop(s, r, tops, levels, top, page, t);
    WriteKeeps(s, tops, pool, t, LeafIndex(page), e);
    hide Owned, Refines, Update, LeafMapping, PoolOk, KernelComplete;
    WriteLeafOwned(s, r, tops, levels, t, LeafIndex(page), e);
    WriteRefines(s, r, tops, levels, f, top, page, t, e);
  }

  lemma WriteKeeps(s: Store, tops: set<nat>, pool: seq<nat>, t: nat, i: nat, e: nat)
    requires t in s && i < ENTRIES && t !in tops && PoolOk(s, pool) && KernelComplete(s, tops)
    ensures PoolOk(WriteLeaf(s, t, i, e), pool) && KernelComplete(WriteLeaf(s, t, i, e), tops)
  {
  }

  lemma LeafIsNoTop(s: Store, r: Roles, tops: set<nat>, levels: nat, top: nat, page: Path, t: nat)
    requires Owned(s, r, tops, levels) && ValidPage(page, levels)
    requires t in r && r[t] == RoleFor(top, LeafPath(page))
    ensures t !in tops && levels > 1
  {
  }

  lemma UnmapNothing(f: Flat, top: nat, page: Path)
    requires page != [] && top in f.lower && Lookup(f, top, page) == None
    ensures Update(f, top, page, None) == f
  {
    var m := MapFor(f, top, page);
    assert m - {page} == m;
    assert f.lower[top := f.lower[top]] == f.lower;
  }

  function PageCount(size: nat): nat {
    (size + PAGE_SIZE - 1) / PAGE_SIZE
  }

  /** The flat map after `n` consecutive pages have been mapped to consecutive frames. */
  function MapPages(f: Flat, top: nat, virt: nat, phys: nat, n: nat, flags: nat, levels: nat): Flat
    requires levels == 4 || levels == 5
  {
    if n == 0 then f
    else
      var k := (n - 1) * PAGE_SIZE;
      Update(MapPages(f, top, virt, phys, n - 1, flags, levels), top, PageOf(virt + k, levels),
             Some(Mapping(phys + k, flags)))
  }

  /** Unmaps `n` pages from `virt` on. */
  function UnmapPages(f: Flat, top: nat, virt: nat, n: nat, levels: nat): Flat
    requires levels == 4 || levels == 5
  {
    if n == 0 then f
    else Update(UnmapPages(f, top, virt, n - 1, levels), top, PageOf(virt + (n - 1) * PAGE_SIZE, levels), None)
  }

  lemma PrivatePresent(s: Store, r: Roles, tops: set<nat>, levels: nat, top: nat)
    requires Owned(s, r, tops, levels)
    ensures PrivateTables(r, top) <= r.Keys && Intact(s, s, PrivateTables(r, top))
  {
  }

  lemma RemoveEffects(s: Store, r: Roles, tops: set<nat>, levels: nat, f: Flat, pool: seq<nat>, top: nat, other: nat)
    requires Owned(s, r, tops, levels) && Refines(s, tops, levels, f) && KernelComplete(s, tops)
    requires top in tops && other in tops && other != top
    ensures var dead := PrivateTables(r, top);
            && Owned(s - dead, r - dead, tops - {top}, levels)
            && Refines(s - dead, tops - {top}, levels, f.(lower := f.lower - {top}))
            && KernelComplete(s - dead, tops - {top})
  {
    hide Owned, Refines, KernelComplete, PrivateTables;
    RemoveTopOwned(s, r, tops, levels, top, other);
    RemoveRefines(s, r, tops, levels, f, top);
    RemoveComplete(s, r, tops, top);
  }

  lemma RemoveComplete(s: Store, r: Roles, tops: set<nat>, top: nat)
    requires KernelComplete(s, tops)
    ensures KernelComplete(s - PrivateTables(r, top), tops - {top})
  {
    hide PrivateTables;
  }

  lemma RemoveRefines(s: Store, r: Roles, tops: set<nat>, levels: nat, f: Flat, top: nat)
    requires Owned(s, r, tops, levels) && Refines(s, tops, levels, f) && top in tops
    ensures Refines(s - PrivateTables(r, top), tops - {top}, levels, f.(lower := f.lower - {top}))
  {
    hide Owned, Translate, PrivateTables;
    var dead := PrivateTables(r, top);
    var f' := f.(lower := f.lower - {top});
    forall t, page | t in tops - {top} && ValidPage(page, levels)
      ensures Translate(s - dead, t, page) == Lookup(f', t, page)
    {
      RemoveTopView(s, r, tops, levels, top, t, page);
    }
  }

  /** Freed tables can be handed out again. */
  lemma PoolReturned(s: Store, r: Roles, pool: seq<nat>, dead: set<nat>, freed: seq<nat>, tops: set<nat>, levels: nat)
    requires Owned(s, r, tops, levels) && PoolOk(s, pool) && Lists(freed, dead) && dead <= r.Keys
    ensures PoolOk(s - dead, pool + freed)
  {
    forall k | 0 <= k < |freed|
      ensures freed[k] in s && freed[k] in dead && freed[k] != 0 && IsFrame(freed[k])
    {
      assert freed[k] in freed;
    }
  }

  lemma IntactRest(s: Store, s0: Store, which: set<nat>, removed: set<nat>, rest: set<nat>)
    requires Intact(s, s0, which) && rest <= which && rest !! removed
    ensures Intact(s - removed, s0, rest)
  {
  }

  lemma RemoveTwice(s: Store, a: set<nat>, b: set<nat>)
    ensures s - a - b == s - (a + b)
  {
  }

  /** The tables of `which` are still what they were in `s0`. */
  ghost predicate Intact(s: Store, s0: Store, which: set<nat>) {
    forall b :: b in which ==> b in s && b in s0 && s[b] == s0[b]
  }

  lemma IndexIs(virt: nat, shift: nat, i: nat)
    requires i * Pow2(shift) <= virt < (i + 1) * Pow2(shift) && i < ENTRIES
    ensures Index(virt, shift) == i
  {
    ShrBounds(virt, shift, i, i + 1);
    IndexBound(virt, shift);
    Pow2Values();
    LowSmall(i, 9);
  }

  /**
   The pages at address zero and at `v` are in different leaf tables if `v` is the start of the
   second two megabytes.
   */
  lemma SecondLeaf(v: nat, levels: nat)
    requires (levels == 4 || levels == 5) && v == Pow2(21)
    ensures LeafPath(PageOf(0, levels)) != LeafPath(PageOf(v, levels))
  {
    hide Index;
    IndexIs(0, 21, 0);
    IndexIs(v, 21, 1);
    var p, q := PageOf(0, levels), PageOf(v, levels);
    assert p[levels - 2] == 0 && q[levels - 2] == 1;
    assert LeafPath(p)[levels - 2] == 0 && LeafPath(q)[levels - 2] == 1;
  }

  lemma LeafOfTwoMegabytes(levels: nat)
    requires levels == 4 || levels == 5
    ensures LeafPath(PageOf(0, levels)) != LeafPath(PageOf(0x20_0000, levels))
  {
    hide PageOf;
    Pow2Add(16, 5);
    Pow2Values();
    SecondLeaf(0x20_0000, levels);
  }

  // ----- Leaf tables -----

  /** The table that would hold the entry of this page exists. */
  ghost predicate HasLeaf(r: Roles, top: nat, page: Path)
    requires page != []
  {
    exists x :: x in r && r[x] == RoleFor(top, LeafPath(page))
  }

  /** Tables were added, none of them a leaf table except possibly the one with the role `leaf`. */
  ghost predicate Grown(r: Roles, r': Roles, levels: nat, leaf: Role) {
    && (forall x :: x in r ==> x in r' && r'[x] == r[x])
    && (forall x :: x in r' && x !in r ==> |r'[x].path| + 1 < levels || r'[x] == leaf)
  }

  lemma GrownTwice(r: Roles, mid: Roles, r': Roles, levels: nat, leaf: Role)
    requires Grown(r, mid, levels, leaf) && Grown(mid, r', levels, leaf)
    ensures Grown(r, r', levels, leaf)
  {
  }

  lemma GrownSelf(r: Roles, levels: nat, leaf: Role)
    ensures Grown(r, r, levels, leaf)
  {
  }

  lemma LeafThere(r: Roles, x: nat, top: nat, page: Path)
    requires page != [] && x in r && r[x] == RoleFor(top, LeafPath(page))
    ensures HasLeaf(r, top, page)
  {
  }

  /** Only top-level tables and tables right below them were added. */
  ghost predicate GrownAtTop(r: Roles, r': Roles) {
    && (forall x :: x in r ==> x in r' && r'[x] == r[x])
    && (forall x :: x in r' && x !in r ==> |r'[x].path| <= 1)
  }

  lemma GrownAtTopStep(r: Roles, mid: Roles, r': Roles, t: nat, i: nat)
    requires GrownAtTop(r, mid) && t in mid && mid[t].path == []
    requires forall x :: x in mid ==> x in r' && r'[x] == mid[x]
    requires forall x :: x in r' && x !in mid ==> r'[x] == Child(mid[t], i)
    ensures GrownAtTop(r, r')
  {
  }

  lemma GrownAtTopSelf(r: Roles)
    ensures GrownAtTop(r, r)
  {
  }

  lemma NewTopGrown(s: Store, r: Roles, tops: set<nat>, levels: nat, pool: seq<nat>)
    requires Owned(s, r, tops, levels) && PoolOk(s, pool) && pool != []
    ensures GrownAtTop(r, AddTopRole(r, pool[0]))
  {
    hide Owned;
    OwnedKeys(s, r, tops, levels);
  }

  lemma KernelFilled(s: Store, top: nat)
    requires top in s && forall j :: KERNEL_HALF <= j < ENTRIES ==> s[top][j] != 0
    ensures KernelComplete(s, {top})
  {
  }

  lemma GrownAtTopTwice(r: Roles, mid: Roles, r': Roles)
    requires GrownAtTop(r, mid) && GrownAtTop(mid, r')
    ensures GrownAtTop(r, r')
  {
  }

  /** Growing for one page gives a leaf table to that page, to those that share it, and to no other. */
  lemma GrownLeaves(r: Roles, r': Roles, levels: nat, top: nat, page: Path, top2: nat, page2: Path)
    requires |page| == |page2| == levels > 0
    requires Grown(r, r', levels, RoleFor(top, LeafPath(page))) && HasLeaf(r', top, page)
    ensures HasLeaf(r', top2, page2) <==>
            HasLeaf(r, top2, page2) || RoleFor(top2, LeafPath(page2)) == RoleFor(top, LeafPath(page))
  {
    RolePath(top2, LeafPath(page2));
    if x :| x in r && r[x] == RoleFor(top2, LeafPath(page2)) {
      assert r'[x] == r[x];
    }
  }

  lemma {:induction false} UnmapPagesAt(f: Flat, top: nat, virt: nat, n: nat, levels: nat, top2: nat, page: Path)
    requires (levels == 4 || levels == 5) && page != []
    ensures Lookup(UnmapPages(f, top, virt, n, levels), top2, page) ==
            if Shares(top, top2, page) && InPages(virt, n, levels, page) then None else Lookup(f, top2, page)
  {
    hide Lookup, Update, PageOf;
    if n > 0 {
      UnmapPagesAt(f, top, virt, n - 1, levels, top2, page);
      LookupUpdate(UnmapPages(f, top, virt, n - 1, levels), top, PageOf(virt + (n - 1) * PAGE_SIZE, levels), None,
                   top2, page);
    }
  }

  /** One of the `n` pages from `virt` on. */
  predicate InPages(virt: nat, n: nat, levels: nat, page: Path)
    requires levels == 4 || levels == 5
  {
    exists k: nat :: k < n && PageOf(virt + k * PAGE_SIZE, levels) == page
  }

  /** Unmapping the first `done` of `n` pages leaves none mapped exactly when no other page of the range is mapped. */
  lemma AllUnmappedIff(f: Flat, top: nat, virt: nat, n: nat, done: nat, levels: nat)
    requires (levels == 4 || levels == 5) && done <= n
    ensures (forall k: nat :: k < n ==> Lookup(UnmapPages(f, top, virt, done, levels), top,
                                               PageOf(virt + k * PAGE_SIZE, levels)) == None) <==>
            (forall k: nat :: k < n && !InPages(virt, done, levels, PageOf(virt + k * PAGE_SIZE, levels)) ==>
                                Lookup(f, top, PageOf(virt + k * PAGE_SIZE, levels)) == None)
  {
    hide Lookup, Update, PageOf, UnmapPages, InPages;
    forall k: nat
      ensures Lookup(UnmapPages(f, top, virt, done, levels), top, PageOf(virt + k * PAGE_SIZE, levels)) ==
              if InPages(virt, done, levels, PageOf(virt + k * PAGE_SIZE, levels)) then None
              else Lookup(f, top, PageOf(virt + k * PAGE_SIZE, levels))
    {
      UnmapPagesAt(f, top, virt, done, levels, top, PageOf(virt + k * PAGE_SIZE, levels));
    }
  }
}
