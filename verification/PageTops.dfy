/** Creating and destroying whole page maps: what it does to the shared table store. */
module PageTops {
  import opened Wrappers
  import opened PageEntry
  import opened PageWalk

  // ----- A new top level -----

  /** The first top level starts empty; a later one copies the kernel half of `model`. */
  function NewTop(s: Store, model: Option<nat>): Table
    requires model.Some? ==> model.value in s
  {
    seq(ENTRIES, i requires 0 <= i < ENTRIES => if model.Some? && i >= KERNEL_HALF then s[model.value][i] else 0)
  }

  ghost predicate CanAddTop(s: Store, tops: set<nat>, a: nat, model: Option<nat>) {
    && a !in s && a != 0 && IsFrame(a)
    && if model.Some? then model.value in tops && model.value in s else tops == {} && s == map[]
  }

  function AddTop(s: Store, a: nat, model: Option<nat>): Store
    requires model.Some? ==> model.value in s
  {
    s[a := NewTop(s, model)]
  }

  function AddTopRole(r: Roles, a: nat): Roles {
    r[a := RoleFor(a, [])]
  }

  lemma NotYetPrivate(s: Store, r: Roles, tops: set<nat>, levels: nat, a: nat, b: nat)
    requires Owned(s, r, tops, levels) && a !in s && b in r
    ensures r[b].space != Private(a)
  {
    ShapeOf(s, r, tops, levels, b);
  }

  lemma AddTopLinked(s: Store, r: Roles, tops: set<nat>, levels: nat, a: nat, model: Option<nat>, t: nat, i: nat)
    requires Owned(s, r, tops, levels) && CanAddTop(s, tops, a, model)
    requires t in AddTopRole(r, a) && |AddTopRole(r, a)[t].path| + 1 < levels && i < ENTRIES
    ensures t in AddTop(s, a, model) && Linked(AddTop(s, a, model), AddTopRole(r, a), t, i)
  {
    hide Owned, TableEntry, Address;
    var s', r' := AddTop(s, a, model), AddTopRole(r, a);
    OwnedBasics(s, r, tops, levels);
    if t != a {
      LinkedOf(s, r, tops, levels, t, i);
      AddTopLinkedOther(s, r, tops, levels, a, model, t, i);
    } else if i < KERNEL_HALF {
      forall b | b in r
        ensures r[b] != Child(r'[a], i)
      {
        NotYetPrivate(s, r, tops, levels, a, b);
      }
    } else if model.Some? {
      LinkedOf(s, r, tops, levels, model.value, i);
      assert Child(r[model.value], i) == Child(r'[a], i);
    }
  }

  lemma AddTopLinkedOther(s: Store, r: Roles, tops: set<nat>, levels: nat, a: nat, model: Option<nat>, t: nat, i: nat)
    requires CanAddTop(s, tops, a, model) && r.Keys == s.Keys && t in r && t in s && t != a && i < ENTRIES
    requires Linked(s, r, t, i)
    ensures Linked(AddTop(s, a, model), AddTopRole(r, a), t, i)
  {
    hide TableEntry, Address;
    assert AddTopRole(r, a)[a].path != Child(r[t], i).path;
  }

  lemma AddTopOwned(s: Store, r: Roles, tops: set<nat>, levels: nat, a: nat, model: Option<nat>)
    requires Owned(s, r, tops, levels) && CanAddTop(s, tops, a, model)
    ensures Owned(AddTop(s, a, model), AddTopRole(r, a), tops + {a}, levels)
  {
    hide RoleShape, Linked;
    var s', r' := AddTop(s, a, model), AddTopRole(r, a);
    forall b | b in r
      ensures RoleShape(r', tops + {a}, levels, b)
    {
      ShapeGrows(r, r', tops, levels, b);
      ShapeMoreTops(r', tops, tops + {a}, levels, b);
    }
    assert RoleShape(r', tops + {a}, levels, a) by {
      TopShape(r', tops + {a}, levels, a);
    }
    forall t, i | t in r' && |r'[t].path| + 1 < levels && 0 <= i < ENTRIES
      ensures Linked(s', r', t, i)
    {
      AddTopLinked(s, r, tops, levels, a, model, t, i);
    }
    forall b | b in r
      ensures r[b] != r'[a]
    {
      NotYetPrivate(s, r, tops, levels, a, b);
    }
  }

  lemma TopShape(r: Roles, tops: set<nat>, levels: nat, a: nat)
    requires a in r && r[a] == RoleFor(a, []) && a in tops && levels > 0
    ensures RoleShape(r, tops, levels, a)
  {
  }

  lemma ShapeMoreTops(r: Roles, tops: set<nat>, tops': set<nat>, levels: nat, b: nat)
    requires b in r && RoleShape(r, tops, levels, b) && tops <= tops'
    ensures RoleShape(r, tops', levels, b)
  {
  }

  /** A new page map sees the kernel half of the others and nothing else; the others see no change. */
  lemma AddTopView(s: Store, r: Roles, tops: set<nat>, levels: nat, a: nat, model: Option<nat>, top: nat, page: Path)
    requires Owned(s, r, tops, levels) && CanAddTop(s, tops, a, model)
    requires top in tops + {a} && ValidPage(page, levels)
    ensures Translate(AddTop(s, a, model), top, page) ==
            if top != a then Translate(s, top, page)
            else if page[0] >= KERNEL_HALF && model.Some? then Translate(s, model.value, page)
            else None
  {
    hide Owned, Translate, NewTop, LeafMapping;
    var s', r' := AddTop(s, a, model), AddTopRole(r, a);
    AddTopOwned(s, r, tops, levels, a, model);
    OwnedBasics(s, r, tops, levels);
    var role := RoleFor(top, LeafPath(page));
    if x :| x in r && r[x] == role {
      AddTopViewAt(s, r, tops, levels, a, model, top, page, x);
    } else {
      TranslateNowhere(s', r', tops + {a}, levels, top, page);
      if top != a {
        TranslateNowhere(s, r, tops, levels, top, page);
      } else if page[0] >= KERNEL_HALF && model.Some? {
        TranslateNowhere(s, r, tops, levels, model.value, page);
      }
    }
  }

  lemma AddTopViewAt(s: Store, r: Roles, tops: set<nat>, levels: nat, a: nat, model: Option<nat>, top: nat,
                     page: Path, x: nat)
    requires Owned(s, r, tops, levels) && CanAddTop(s, tops, a, model)
    requires top in tops + {a} && ValidPage(page, levels) && x in r && r[x] == RoleFor(top, LeafPath(page))
    ensures Translate(AddTop(s, a, model), top, page) ==
            if top != a then Translate(s, top, page)
            else if page[0] >= KERNEL_HALF && model.Some? then Translate(s, model.value, page)
            else None
  {
    hide Owned, Translate, NewTop, LeafMapping;
    OwnedBasics(s, r, tops, levels);
    AddTopOwned(s, r, tops, levels, a, model);
    TranslateAt(AddTop(s, a, model), AddTopRole(r, a), tops + {a}, levels, top, page, x);
    if top != a {
      TranslateAt(s, r, tops, levels, top, page, x);
    } else {
      NotYetPrivate(s, r, tops, levels, a, x);
      assert model.Some? by {
        ShapeOf(s, r, tops, levels, x);
      }
      TranslateAt(s, r, tops, levels, model.value, page, x);
    }
  }

  // ----- Destroying a top level -----

  /** The tables that only `top` reaches. */
  ghost function PrivateTables(r: Roles, top: nat): set<nat> {
    set b | b in r && r[b].space == Private(top)
  }

  lemma RemoveTopShape(s: Store, r: Roles, tops: set<nat>, levels: nat, top: nat, other: nat, b: nat)
    requires Owned(s, r, tops, levels) && top in tops && other in tops && other != top
    requires b in r && b !in PrivateTables(r, top)
    ensures RoleShape(r - PrivateTables(r, top), tops - {top}, levels, b)
  {
    var r' := r - PrivateTables(r, top);
    ShapeOf(s, r, tops, levels, b);
    assert r[other] == RoleFor(other, []);
    assert other in r';
    if r[b].path != [] {
      var p :| IsParent(r, p, b);
      ShapeOf(s, r, tops, levels, p);
      if p in r' {
        assert IsParent(r', p, b);
      } else {
        assert IsParent(r', other, b);
      }
    }
  }

  lemma RemoveTopOwned(s: Store, r: Roles, tops: set<nat>, levels: nat, top: nat, other: nat)
    requires Owned(s, r, tops, levels) && top in tops && other in tops && other != top
    ensures Owned(s - PrivateTables(r, top), r - PrivateTables(r, top), tops - {top}, levels)
  {
    hide RoleShape, Linked;
    var dead := PrivateTables(r, top);
    var s', r' := s - dead, r - dead;
    forall b | b in r'
      ensures RoleShape(r', tops - {top}, levels, b)
    {
      RemoveTopShape(s, r, tops, levels, top, other, b);
    }
    forall t, i | t in r' && |r'[t].path| + 1 < levels && 0 <= i < ENTRIES
      ensures Linked(s', r', t, i)
    {
      RemoveTopLinked(s, r, tops, levels, top, t, i);
    }
    forall t | t in tops - {top}
      ensures t in r' && r'[t] == RoleFor(t, [])
    {
      assert r[t] == RoleFor(t, []);
    }
  }

  lemma RemoveTopLinked(s: Store, r: Roles, tops: set<nat>, levels: nat, top: nat, t: nat, i: nat)
    requires Owned(s, r, tops, levels) && top in tops
    requires t in r && t !in PrivateTables(r, top) && |r[t].path| + 1 < levels && i < ENTRIES
    ensures t in s - PrivateTables(r, top)
    ensures Linked(s - PrivateTables(r, top), r - PrivateTables(r, top), t, i)
  {
    assert Linked(s, r, t, i);
  }

  /** Destroying a page map changes no translation of any other. */
  lemma RemoveTopView(s: Store, r: Roles, tops: set<nat>, levels: nat, top: nat, other: nat, page: Path)
    requires Owned(s, r, tops, levels) && top in tops && other in tops && other != top && ValidPage(page, levels)
    ensures Translate(s - PrivateTables(r, top), other, page) == Translate(s, other, page)
  {
    var dead := PrivateTables(r, top);
    RemoveTopOwned(s, r, tops, levels, top, other);
    hide Owned, Translate;
    if x :| x in r && r[x] == RoleFor(other, LeafPath(page)) {
      TranslateAt(s, r, tops, levels, other, page, x);
      TranslateAt(s - dead, r - dead, tops - {top}, levels, other, page, x);
    } else {
      TranslateNowhere(s, r, tops, levels, other, page);
      TranslateNowhere(s - dead, r - dead, tops - {top}, levels, other, page);
    }
  }

  // ----- The tables below a path -----

  /** Table `b` is private to `top` and lies below one of the entries start..end of the table at `p`. */
  ghost predicate Under(r: Roles, top: nat, p: Path, start: nat, end: nat, b: nat) {
    && b in r && r[b].space == Private(top)
    && p < r[b].path && start <= r[b].path[|p|] < end
  }

  ghost function UnderSet(r: Roles, top: nat, p: Path, start: nat, end: nat): set<nat> {
    set b | b in r && Under(r, top, p, start, end, b)
  }

  /** `xs` names every element of `s` exactly once. */
  ghost predicate Lists(xs: seq<nat>, s: set<nat>) {
    && (forall x :: x in xs <==> x in s)
    && (forall j, k :: 0 <= j < k < |xs| ==> xs[j] != xs[k])
  }

  lemma ListsAppend(xs: seq<nat>, s: set<nat>, ys: seq<nat>, t: set<nat>)
    requires Lists(xs, s) && Lists(ys, t) && s !! t
    ensures Lists(xs + ys, s + t)
  {
    forall j, k | 0 <= j < k < |xs + ys|
      ensures (xs + ys)[j] != (xs + ys)[k]
    {
      if j < |xs| <= k {
        assert xs[j] in s && ys[k - |xs|] in t;
      }
    }
  }

  lemma RoleUnique(s: Store, r: Roles, tops: set<nat>, levels: nat, a: nat, b: nat)
    requires Owned(s, r, tops, levels) && a in r && b in r && r[a] == r[b]
    ensures a == b
  {
  }

  lemma PrivateRole(s: Store, r: Roles, tops: set<nat>, levels: nat, top: nat, b: nat)
    requires Owned(s, r, tops, levels) && b in r && r[b].space == Private(top)
    ensures r[b] == RoleFor(top, r[b].path) && |r[b].path| < levels && ValidPath(r[b].path)
  {
    ShapeOf(s, r, tops, levels, b);
  }

  /** One more entry adds the table it leads to and everything below that. */
  lemma UnderStep(s: Store, r: Roles, tops: set<nat>, levels: nat, top: nat, p: Path, start: nat, i: nat, c: nat)
    requires Owned(s, r, tops, levels) && start <= i < ENTRIES
    requires c in r && r[c] == Role(Private(top), p + [i])
    ensures UnderSet(r, top, p, start, i + 1) ==
            UnderSet(r, top, p, start, i) + ({c} + UnderSet(r, top, p + [i], 0, ENTRIES))
    ensures c !in UnderSet(r, top, p + [i], 0, ENTRIES)
    ensures UnderSet(r, top, p, start, i) !! {c} + UnderSet(r, top, p + [i], 0, ENTRIES)
  {
    hide Owned, Under;
    forall b | b in r
      ensures Under(r, top, p, start, i + 1, b) <==>
              Under(r, top, p, start, i, b) || b == c || Under(r, top, p + [i], 0, ENTRIES, b)
      ensures Under(r, top, p, start, i, b) ==> b != c && !Under(r, top, p + [i], 0, ENTRIES, b)
      ensures !Under(r, top, p + [i], 0, ENTRIES, c)
    {
      UnderCases(s, r, tops, levels, top, p, start, i, c, b);
    }
  }

  lemma UnderCases(s: Store, r: Roles, tops: set<nat>, levels: nat, top: nat, p: Path, start: nat, i: nat, c: nat,
                   b: nat)
    requires Owned(s, r, tops, levels) && start <= i < ENTRIES && b in r
    requires c in r && r[c] == Role(Private(top), p + [i])
    ensures Under(r, top, p, start, i + 1, b) <==>
            Under(r, top, p, start, i, b) || b == c || Under(r, top, p + [i], 0, ENTRIES, b)
    ensures Under(r, top, p, start, i, b) ==> b != c && !Under(r, top, p + [i], 0, ENTRIES, b)
    ensures !Under(r, top, p + [i], 0, ENTRIES, c)
  {
    hide Owned;
    if r[b].space == Private(top) && p < r[b].path && r[b].path[|p|] == i {
      PrivateRole(s, r, tops, levels, top, b);
      assert p + [i] <= r[b].path;
      if |r[b].path| == |p| + 1 {
        assert r[b].path == p + [i];
        RoleUnique(s, r, tops, levels, b, c);
      }
    }
  }

  /** An entry that leads nowhere adds nothing. */
  lemma UnderGap(s: Store, r: Roles, tops: set<nat>, levels: nat, top: nat, p: Path, start: nat, i: nat)
    requires Owned(s, r, tops, levels) && top in tops && start <= i < ENTRIES
    requires forall x :: x in r ==> r[x] != RoleFor(top, p + [i])
    ensures UnderSet(r, top, p, start, i + 1) == UnderSet(r, top, p, start, i)
  {
    hide Owned, Under;
    forall b | b in r
      ensures Under(r, top, p, start, i + 1, b) <==> Under(r, top, p, start, i, b)
    {
      UnderGapAt(s, r, tops, levels, top, p, start, i, b);
    }
  }

  lemma UnderGapAt(s: Store, r: Roles, tops: set<nat>, levels: nat, top: nat, p: Path, start: nat, i: nat, b: nat)
    requires Owned(s, r, tops, levels) && top in tops && start <= i < ENTRIES && b in r
    requires forall x :: x in r ==> r[x] != RoleFor(top, p + [i])
    ensures Under(r, top, p, start, i + 1, b) <==> Under(r, top, p, start, i, b)
  {
    hide Owned, RoleFor;
    if r[b].space == Private(top) && p < r[b].path && r[b].path[|p|] == i {
      PrivateRole(s, r, tops, levels, top, b);
      assert p + [i] <= r[b].path;
      MissingTable(s, r, tops, levels, top, p + [i], r[b].path);
    }
  }

  lemma UnderEmpty(r: Roles, top: nat, p: Path, start: nat)
    ensures UnderSet(r, top, p, start, start) == {}
  {
  }

  lemma UnderSplit(r: Roles, top: nat, p: Path, start: nat, i: nat, end: nat, t: nat)
    requires t in r && r[t].path == p && start <= i < end
    ensures t !in UnderSet(r, top, p, start, i) && t !in UnderSet(r, top, p, i, i + 1)
    ensures UnderSet(r, top, p, start, i + 1) == UnderSet(r, top, p, start, i) + UnderSet(r, top, p, i, i + 1)
    ensures UnderSet(r, top, p, start, i) !! UnderSet(r, top, p, i, i + 1)
    ensures UnderSet(r, top, p, i, i + 1) <= UnderSet(r, top, p, start, end)
  {
  }

  lemma ListsSmall(t: nat)
    ensures Lists([], {}) && Lists([t], {t})
  {
  }

  /** Nothing lies below a leaf table. */
  lemma UnderLeaf(s: Store, r: Roles, tops: set<nat>, levels: nat, top: nat, p: Path, start: nat, i: nat)
    requires Owned(s, r, tops, levels) && |p| + 1 == levels && start <= i
    ensures UnderSet(r, top, p, start, i) == {} == UnderSet(r, top, p, start, i + 1)
  {
    forall b | b in r
      ensures !Under(r, top, p, start, i, b) && !Under(r, top, p, start, i + 1, b)
    {
      ShapeOf(s, r, tops, levels, b);
    }
  }

  lemma PrivateChild(top: nat, p: Path, i: nat)
    requires RoleFor(top, p).space == Private(top) && (p == [] ==> i < KERNEL_HALF)
    ensures RoleFor(top, p + [i]) == Role(Private(top), p + [i])
  {
  }

  lemma UnderTopCase(s: Store, r: Roles, tops: set<nat>, levels: nat, top: nat, b: nat)
    requires Owned(s, r, tops, levels) && top in tops && b in r
    ensures r[b].space == Private(top) <==> b == top || Under(r, top, [], 0, KERNEL_HALF, b)
  {
    TopTable(s, r, tops, levels, top);
    ShapeOf(s, r, tops, levels, b);
    hide Owned;
    assert [] <= r[b].path;
  }

  lemma UnderTop(s: Store, r: Roles, tops: set<nat>, levels: nat, top: nat)
    requires Owned(s, r, tops, levels) && top in tops
    ensures PrivateTables(r, top) == {top} + UnderSet(r, top, [], 0, KERNEL_HALF)
  {
    TopTable(s, r, tops, levels, top);
    hide Owned, Under;
    forall b | b in r
      ensures r[b].space == Private(top) <==> b == top || Under(r, top, [], 0, KERNEL_HALF, b)
    {
      UnderTopCase(s, r, tops, levels, top, b);
    }
  }
}
