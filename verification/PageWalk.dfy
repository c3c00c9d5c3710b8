/**
 Multi-level page tables as a pure structure: the walk, the ownership invariant that every
 operation keeps, and the effect of the two kinds of write on every translation.

 Every table has a role: the top-level table it is private to (or the kernel half, which
 all top levels share) and the path of indices that leads to it. Roles are never shared,
 so a write to one table can only change the pages below its role.
 */
module PageWalk {
  import opened Wrappers
  import opened PageEntry

  const ENTRIES: nat := 512
  const KERNEL_HALF: nat := 256

  type Table = t: seq<nat> | |t| == ENTRIES witness seq(ENTRIES, i => 0)
  type Store = map<nat, Table>
  type Path = seq<nat>

  function EmptyTable(): Table {
    seq(ENTRIES, i => 0)
  }

  predicate ValidPath(p: Path) {
    forall k :: 0 <= k < |p| ==> p[k] < ENTRIES
  }

  /** The table that the indices `p` lead to from table `t`. */
  function Walk(s: Store, t: nat, p: Path): Option<nat>
    requires ValidPath(p)
    decreases |p|
  {
    if t !in s then None
    else if p == [] then Some(t)
    else if !IsValid(s[t][p[0]]) then None
    else Walk(s, Address(s[t][p[0]]), p[1..])
  }

  datatype Mapping = Mapping(frame: nat, flags: nat)

  function LeafMapping(e: nat): Option<Mapping> {
    if IsValid(e) then Some(Mapping(Address(e), Flags(e))) else None
  }

  /** What the tables say about the page with indices `page`, seen from `top`. */
  function Translate(s: Store, top: nat, page: Path): Option<Mapping>
    requires ValidPath(page) && |page| > 0
  {
    match Walk(s, top, page[..|page| - 1])
    case None => None
    case Some(t) => if t in s then LeafMapping(s[t][page[|page| - 1]]) else None
  }

  // ----- Roles -----

  datatype Space = Kernel | Private(top: nat)
  datatype Role = Role(space: Space, path: Path)
  type Roles = map<nat, Role>

  function Child(r: Role, i: nat): Role {
    Role(if r.path == [] && i >= KERNEL_HALF then Kernel else r.space, r.path + [i])
  }

  /** The role of the table that `p` leads to from the top-level table `top`. */
  function RoleFor(top: nat, p: Path): Role {
    Role(if p != [] && p[0] >= KERNEL_HALF then Kernel else Private(top), p)
  }

  /** Entry `i` of table `t` is empty and leads nowhere, or leads to the table with the child role. */
  ghost predicate Linked(s: Store, r: Roles, t: nat, i: nat)
    requires t in s && t in r && i < ENTRIES
  {
    var e := s[t][i];
    if e == 0 then forall b :: b in r ==> r[b] != Child(r[t], i)
    else Address(e) in r && r[Address(e)] == Child(r[t], i) && e == TableEntry(Address(e))
  }

  ghost predicate IsParent(r: Roles, t: nat, b: nat) {
    && t in r && b in r && r[b].path != []
    && Child(r[t], r[b].path[|r[b].path| - 1]) == r[b]
  }

  ghost predicate HasParent(r: Roles, b: nat)
    requires b in r && r[b].path != []
  {
    exists t :: IsParent(r, t, b)
  }

  ghost predicate RoleShape(r: Roles, tops: set<nat>, levels: nat, t: nat)
    requires t in r
  {
    && |r[t].path| < levels && ValidPath(r[t].path)
    && (r[t].path == [] ==> r[t] == RoleFor(t, []) && t in tops)
    && (r[t].path != [] ==> (r[t].space.Kernel? <==> r[t].path[0] >= KERNEL_HALF) && HasParent(r, t))
    && (r[t].space.Private? ==> r[t].space.top in tops)
  }

  /** The ownership invariant of the table store. */
  ghost predicate Owned(s: Store, r: Roles, tops: set<nat>, levels: nat) {
    && levels > 1
    && r.Keys == s.Keys
    && (forall t :: t in s ==> t != 0 && IsFrame(t))
    && (forall t :: t in r ==> RoleShape(r, tops, levels, t))
    && (forall t :: t in tops ==> t in r && r[t] == RoleFor(t, []))
    && (forall a, b :: a in r && b in r && r[a] == r[b] ==> a == b)
    && (forall t, i :: t in r && |r[t].path| + 1 < levels && 0 <= i < ENTRIES ==> Linked(s, r, t, i))
  }

  /** Every top level has all its kernel-half tables. */
  ghost predicate KernelComplete(s: Store, tops: set<nat>) {
    forall t, i :: t in tops && t in s && KERNEL_HALF <= i < ENTRIES ==> s[t][i] != 0
  }

  lemma LinkedOf(s: Store, r: Roles, tops: set<nat>, levels: nat, t: nat, i: nat)
    requires Owned(s, r, tops, levels) && t in r && |r[t].path| + 1 < levels && i < ENTRIES
    ensures t in s && Linked(s, r, t, i)
  {
    hide RoleShape, Linked;
  }

  lemma OwnedBasics(s: Store, r: Roles, tops: set<nat>, levels: nat)
    requires Owned(s, r, tops, levels)
    ensures levels > 1 && r.Keys == s.Keys
    ensures forall t :: t in tops ==> t in r && r[t] == RoleFor(t, [])
  {
    hide RoleShape, Linked;
  }

  // ----- Walks follow roles -----

  lemma EntryValid(s: Store, r: Roles, tops: set<nat>, levels: nat, t: nat, i: nat)
    requires Owned(s, r, tops, levels) && t in r && |r[t].path| + 1 < levels && i < ENTRIES
    ensures s[t][i] != 0 <==> IsValid(s[t][i])
    ensures s[t][i] != 0 ==> !IsLarge(s[t][i])
  {
    assert Linked(s, r, t, i);
    if s[t][i] != 0 {
      TableEntryFields(Address(s[t][i]));
    }
  }

  lemma {:induction false} WalkSnoc(s: Store, t: nat, p: Path, i: nat)
    requires ValidPath(p) && i < ENTRIES
    ensures ValidPath(p + [i])
    ensures Walk(s, t, p + [i]) ==
            match Walk(s, t, p)
            case None => None
            case Some(x) => if x in s && IsValid(s[x][i]) then Walk(s, Address(s[x][i]), []) else None
    decreases |p|
  {
    if p == [] {
      assert (p + [i])[1..] == [];
    } else if t in s && IsValid(s[t][p[0]]) {
      WalkSnoc(s, Address(s[t][p[0]]), p[1..], i);
      assert (p + [i])[1..] == p[1..] + [i];
    }
  }

  /** An entry leads to `x` exactly when `x` has the child role. */
  lemma StepRole(s: Store, r: Roles, tops: set<nat>, levels: nat, t: nat, i: nat, x: nat)
    requires Owned(s, r, tops, levels) && t in r && |r[t].path| + 1 < levels && i < ENTRIES
    ensures t in s
    ensures IsValid(s[t][i]) && Address(s[t][i]) == x <==> x in r && r[x] == Child(r[t], i)
    ensures IsValid(s[t][i]) ==> Address(s[t][i]) in s
  {
    assert Linked(s, r, t, i);
    EntryValid(s, r, tops, levels, t, i);
  }

  lemma ChildRoleFor(top: nat, q: Path, i: nat)
    ensures Child(RoleFor(top, q), i) == RoleFor(top, q + [i])
  {
  }

  /** From a top level, a path leads to a table exactly when that table has the path's role. */
  lemma {:induction false} WalkRole(s: Store, r: Roles, tops: set<nat>, levels: nat, top: nat, p: Path, x: nat)
    requires Owned(s, r, tops, levels) && top in tops
    requires ValidPath(p) && |p| < levels
    ensures Walk(s, top, p) == Some(x) <==> x in r && r[x] == RoleFor(top, p)
    decreases |p|, 1
  {
    hide Owned, Walk, RoleFor;
    if p == [] {
      WalkRoleTop(s, r, tops, levels, top, x);
    } else {
      var q, i := p[..|p| - 1], p[|p| - 1];
      assert p == q + [i];
      WalkRoleSnoc(s, r, tops, levels, top, q, i, x);
    }
  }

  lemma WalkRoleTop(s: Store, r: Roles, tops: set<nat>, levels: nat, top: nat, x: nat)
    requires Owned(s, r, tops, levels) && top in tops
    ensures Walk(s, top, []) == Some(x) <==> x in r && r[x] == RoleFor(top, [])
  {
    hide RoleShape, Linked;
    assert r[top] == RoleFor(top, []);
  }

  lemma {:induction false} WalkRoleSnoc(s: Store, r: Roles, tops: set<nat>, levels: nat,
                                        top: nat, q: Path, i: nat, x: nat)
    requires Owned(s, r, tops, levels) && top in tops
    requires ValidPath(q) && |q| + 1 < levels && i < ENTRIES
    ensures ValidPath(q + [i])
    ensures Walk(s, top, q + [i]) == Some(x) <==> x in r && r[x] == RoleFor(top, q + [i])
    decreases |q|, 2
  {
    hide Owned, RoleFor, Child;
    WalkSnoc(s, top, q, i);
    ChildRoleFor(top, q, i);
    var w := Walk(s, top, q);
    if w.Some? {
      WalkRole(s, r, tops, levels, top, q, w.value);
      RolePath(top, q);
      StepRole(s, r, tops, levels, w.value, i, x);
    } else if x in r && r[x] == RoleFor(top, q + [i]) {
      var t := FindParent(s, r, tops, levels, top, q, i, x);
      WalkRole(s, r, tops, levels, top, q, t);
    }
  }

  lemma RolePath(top: nat, p: Path)
    ensures RoleFor(top, p).path == p
  {
  }

  lemma FindParent(s: Store, r: Roles, tops: set<nat>, levels: nat, top: nat, q: Path, i: nat, x: nat) returns (t: nat)
    requires Owned(s, r, tops, levels) && top in tops
    requires ValidPath(q) && |q| + 1 < levels && i < ENTRIES
    requires x in r && r[x] == RoleFor(top, q + [i])
    ensures t in r && r[t] == RoleFor(top, q) && Child(r[t], i) == r[x]
  {
    assert RoleShape(r, tops, levels, x) && HasParent(r, x);
    if q == [] {
      t := top;
    } else {
      t :| IsParent(r, t, x);
      ChildRoleFor(top, q, i);
      ChildInjective(r[t], i, RoleFor(top, q), i);
    }
  }

  /** All top levels see the same kernel half, and nothing of each other's lower half. */
  lemma RolesShared(top1: nat, top2: nat, p: Path)
    ensures RoleFor(top1, p) == RoleFor(top2, p) <==> top1 == top2 || (p != [] && p[0] >= KERNEL_HALF)
  {
  }

  lemma TopTable(s: Store, r: Roles, tops: set<nat>, levels: nat, top: nat)
    requires Owned(s, r, tops, levels) && top in tops
    ensures top in r && top in s && r[top] == RoleFor(top, [])
  {
  }

  /** When no table has the role of a prefix of the walk, none has the role of the whole walk. */
  lemma MissingTable(s: Store, r: Roles, tops: set<nat>, levels: nat, top: nat, p: Path, q: Path)
    requires Owned(s, r, tops, levels) && top in tops
    requires ValidPath(q) && |q| < levels && p <= q
    requires forall x :: x in r ==> r[x] != RoleFor(top, p)
    ensures forall x :: x in r ==> r[x] != RoleFor(top, q)
  {
    hide Owned;
    assert q[..|p|] == p;
    assert ValidPath(p);
    WalkPrefix(s, top, p, q);
    var w := Walk(s, top, p);
    if w.Some? {
      WalkRole(s, r, tops, levels, top, p, w.value);
    }
    forall x | x in r
      ensures r[x] != RoleFor(top, q)
    {
      WalkRole(s, r, tops, levels, top, q, x);
    }
  }

  lemma {:induction false} WalkPrefix(s: Store, t: nat, p: Path, q: Path)
    requires ValidPath(q) && ValidPath(p) && p <= q
    ensures Walk(s, t, p) == None ==> Walk(s, t, q) == None
    decreases |p|
  {
    if p != [] && t in s && IsValid(s[t][p[0]]) {
      assert p[1..] <= q[1..];
      WalkPrefix(s, Address(s[t][p[0]]), p[1..], q[1..]);
    }
  }

  predicate ValidPage(page: Path, levels: nat) {
    |page| == levels && levels > 0 && ValidPath(page)
  }

  function LeafPath(page: Path): Path
    requires page != []
  {
    page[..|page| - 1]
  }

  function LeafIndex(page: Path): nat
    requires page != []
  {
    page[|page| - 1]
  }

  lemma TranslateAt(s: Store, r: Roles, tops: set<nat>, levels: nat, top: nat, page: Path, x: nat)
    requires Owned(s, r, tops, levels) && top in tops && ValidPage(page, levels)
    requires x in r && r[x] == RoleFor(top, LeafPath(page))
    ensures x in s && Translate(s, top, page) == LeafMapping(s[x][LeafIndex(page)])
  {
    WalkRole(s, r, tops, levels, top, LeafPath(page), x);
  }

  lemma TranslateNowhere(s: Store, r: Roles, tops: set<nat>, levels: nat, top: nat, page: Path)
    requires Owned(s, r, tops, levels) && top in tops && ValidPage(page, levels)
    requires forall x :: x in r ==> r[x] != RoleFor(top, LeafPath(page))
    ensures Translate(s, top, page) == None
  {
    var w := Walk(s, top, LeafPath(page));
    if w.Some? {
      WalkRole(s, r, tops, levels, top, LeafPath(page), w.value);
    }
  }

  // ----- Allocating an intermediate table -----

  function AddTable(s: Store, t: nat, i: nat, a: nat): Store
    requires t in s && i < ENTRIES
  {
    s[t := s[t][i := TableEntry(a)]][a := EmptyTable()]
  }

  ghost function AddRole(r: Roles, t: nat, i: nat, a: nat): Roles
    requires t in r
  {
    r[a := Child(r[t], i)]
  }

  /** A table may be hung below entry `i` of `t`: the entry is empty, and no other top level shares it. */
  ghost predicate CanAdd(s: Store, r: Roles, tops: set<nat>, levels: nat, t: nat, i: nat, a: nat) {
    && t in r && t in s && |r[t].path| + 1 < levels && i < ENTRIES
    && s[t][i] == 0
    && a !in s && a != 0 && IsFrame(a)
    && (r[t].path == [] && i >= KERNEL_HALF ==> tops == {t})
  }

  lemma ChildInjective(r1: Role, i1: nat, r2: Role, i2: nat)
    requires Child(r1, i1) == Child(r2, i2)
    ensures i1 == i2 && r1.path == r2.path
    ensures r1.path != [] || i1 < KERNEL_HALF ==> r1 == r2
  {
    assert r1.path == (r1.path + [i1])[..|r1.path|];
    assert r2.path == (r2.path + [i2])[..|r2.path|];
  }

  /** Only one entry can lead to a new table. */
  lemma SingleParent(s: Store, r: Roles, tops: set<nat>, levels: nat, t: nat, i: nat, a: nat, t2: nat, i2: nat)
    requires Owned(s, r, tops, levels) && CanAdd(s, r, tops, levels, t, i, a)
    requires t2 in r && Child(r[t2], i2) == Child(r[t], i)
    ensures t2 == t && i2 == i
  {
    ChildInjective(r[t2], i2, r[t], i);
    assert RoleShape(r, tops, levels, t2) && RoleShape(r, tops, levels, t);
  }

  /** Nothing lies below an empty entry. */
  lemma NothingBelow(s: Store, r: Roles, tops: set<nat>, levels: nat, t: nat, i: nat, a: nat, b: nat, j: nat)
    requires Owned(s, r, tops, levels) && CanAdd(s, r, tops, levels, t, i, a) && b in r
    ensures r[b] != Child(r[t], i) && r[b] != Child(Child(r[t], i), j)
  {
    assert Linked(s, r, t, i);
    if r[b] == Child(Child(r[t], i), j) {
      assert RoleShape(r, tops, levels, b) && HasParent(r, b);
      var p :| IsParent(r, p, b);
      ChildInjective(r[p], r[b].path[|r[b].path| - 1], Child(r[t], i), j);
    }
  }

  lemma AddTableLinked(s: Store, r: Roles, tops: set<nat>, levels: nat, t: nat, i: nat, a: nat, t2: nat, i2: nat)
    requires Owned(s, r, tops, levels) && CanAdd(s, r, tops, levels, t, i, a)
    requires t2 in AddRole(r, t, i, a) && |AddRole(r, t, i, a)[t2].path| + 1 < levels && i2 < ENTRIES
    ensures t2 in AddTable(s, t, i, a) && Linked(AddTable(s, t, i, a), AddRole(r, t, i, a), t2, i2)
  {
    var s', r' := AddTable(s, t, i, a), AddRole(r, t, i, a);
    if t2 == a {
      forall b | b in r'
        ensures r'[b] != Child(r'[a], i2)
      {
        if b != a {
          NothingBelow(s, r, tops, levels, t, i, a, b, i2);
        }
      }
    } else if t2 == t && i2 == i {
      TableEntryFields(a);
    } else {
      assert Linked(s, r, t2, i2);
      if s[t2][i2] == 0 && Child(r[t2], i2) == Child(r[t], i) {
        SingleParent(s, r, tops, levels, t, i, a, t2, i2);
      }
    }
  }

  lemma ShapeOf(s: Store, r: Roles, tops: set<nat>, levels: nat, b: nat)
    requires Owned(s, r, tops, levels) && b in r
    ensures b in s && RoleShape(r, tops, levels, b)
  {
  }

  /** A role keeps its shape when more tables are added. */
  lemma ShapeGrows(r: Roles, r': Roles, tops: set<nat>, levels: nat, b: nat)
    requires b in r && RoleShape(r, tops, levels, b)
    requires forall x :: x in r ==> x in r' && r'[x] == r[x]
    ensures RoleShape(r', tops, levels, b)
  {
    if r[b].path != [] {
      var p :| IsParent(r, p, b);
      assert IsParent(r', p, b);
    }
  }

  lemma ChildShape(r: Roles, tops: set<nat>, levels: nat, t: nat, i: nat, a: nat)
    requires t in r && RoleShape(r, tops, levels, t) && |r[t].path| + 1 < levels && i < ENTRIES
    requires a in r && a != t && r[a] == Child(r[t], i)
    ensures RoleShape(r, tops, levels, a)
  {
    assert IsParent(r, t, a);
  }

  /** Allocating a table keeps the ownership invariant. */
  lemma AddTableOwned(s: Store, r: Roles, tops: set<nat>, levels: nat, t: nat, i: nat, a: nat)
    requires Owned(s, r, tops, levels) && CanAdd(s, r, tops, levels, t, i, a)
    ensures Owned(AddTable(s, t, i, a), AddRole(r, t, i, a), tops, levels)
  {
    hide RoleShape, Linked;
    var s', r' := AddTable(s, t, i, a), AddRole(r, t, i, a);
    forall b | b in r
      ensures RoleShape(r', tops, levels, b)
    {
      ShapeGrows(r, r', tops, levels, b);
    }
    ChildShape(r', tops, levels, t, i, a);
    forall t2, i2 | t2 in r' && |r'[t2].path| + 1 < levels && 0 <= i2 < ENTRIES
      ensures Linked(s', r', t2, i2)
    {
      AddTableLinked(s, r, tops, levels, t, i, a, t2, i2);
    }
    forall b | b in r
      ensures r[b] != r'[a]
    {
      NothingBelow(s, r, tops, levels, t, i, a, b, 0);
    }
  }

  lemma EmptyMapping(i: nat)
    requires i < ENTRIES
    ensures LeafMapping(EmptyTable()[i]) == None
  {
  }

  /** Allocating a table changes no translation. */
  lemma AddTableView(s: Store, r: Roles, tops: set<nat>, levels: nat, t: nat, i: nat, a: nat, top: nat, page: Path)
    requires Owned(s, r, tops, levels) && CanAdd(s, r, tops, levels, t, i, a)
    requires top in tops && ValidPage(page, levels)
    ensures Translate(AddTable(s, t, i, a), top, page) == Translate(s, top, page)
  {
    hide Owned, Translate;
    var s', r' := AddTable(s, t, i, a), AddRole(r, t, i, a);
    AddTableOwned(s, r, tops, levels, t, i, a);
    EmptyMapping(LeafIndex(page));
    var role := RoleFor(top, LeafPath(page));
    if x :| x in r && r[x] == role {
      TranslateAt(s, r, tops, levels, top, page, x);
      TranslateAt(s', r', tops, levels, top, page, x);
    } else {
      TranslateNowhere(s, r, tops, levels, top, page);
      if r'[a] == role {
        TranslateAt(s', r', tops, levels, top, page, a);
      } else {
        TranslateNowhere(s', r', tops, levels, top, page);
      }
    }
  }

  // ----- Writing a leaf entry -----

  function WriteLeaf(s: Store, t: nat, i: nat, e: nat): Store
    requires t in s && i < ENTRIES
  {
    s[t := s[t][i := e]]
  }

  lemma WriteLeafOwned(s: Store, r: Roles, tops: set<nat>, levels: nat, t: nat, i: nat, e: nat)
    requires Owned(s, r, tops, levels) && t in r && t in s && |r[t].path| + 1 == levels && i < ENTRIES
    ensures Owned(WriteLeaf(s, t, i, e), r, tops, levels)
  {
    var s' := WriteLeaf(s, t, i, e);
    forall t2, i2 | t2 in r && |r[t2].path| + 1 < levels && 0 <= i2 < ENTRIES
      ensures Linked(s', r, t2, i2)
    {
      assert Linked(s, r, t2, i2);
    }
  }

  /** A leaf write changes the translation of its own page, for the top levels that share it, and no other. */
  lemma WriteLeafView(s: Store, r: Roles, tops: set<nat>, levels: nat, t: nat, i: nat, e: nat, top: nat, page: Path)
    requires Owned(s, r, tops, levels) && t in r && t in s && |r[t].path| + 1 == levels && i < ENTRIES
    requires top in tops && ValidPage(page, levels)
    ensures Translate(WriteLeaf(s, t, i, e), top, page) ==
            if r[t] == RoleFor(top, LeafPath(page)) && LeafIndex(page) == i then LeafMapping(e)
            else Translate(s, top, page)
  {
    var s' := WriteLeaf(s, t, i, e);
    WriteLeafOwned(s, r, tops, levels, t, i, e);
    if x :| x in r && r[x] == RoleFor(top, LeafPath(page)) {
      TranslateAt(s, r, tops, levels, top, page, x);
      TranslateAt(s', r, tops, levels, top, page, x);
    } else {
      TranslateNowhere(s, r, tops, levels, top, page);
      TranslateNowhere(s', r, tops, levels, top, page);
    }
  }
}
