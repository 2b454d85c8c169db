/**
 * Menus as the handler returns them, each carrying its children, and
 * `sortMenus`, which sorts every level of such a forest by the `order`
 * field, recursing into the children of each menu.
 */
module MenuTrees {
  import opened Accounts
  import opened Sequences

  type MenuId = string

  /**
   * The columns of a menu row the handler reads.  The other columns are
   * copied into the response unchanged and are not modelled.
   */
  datatype Menu = Menu(id: MenuId, parentId: Option<MenuId>, order: string, isActive: bool)

  /** A `MenuWithChildren` as it is serialised: the menu and its children. */
  datatype MenuTree = MenuTree(menu: Menu, children: seq<MenuTree>)

  // ---------------------------------------------------------------- the ordering

  /** `a.order.localeCompare(b.order) <= 0`. */
  predicate ByOrder(a: MenuTree, b: MenuTree)
  {
    LexLe(a.menu.order, b.menu.order)
  }

  /** The comparator is a total preorder, and two menus tie exactly when their `order` strings are equal. */
  lemma ByOrderIsTotalPreorder()
    ensures TotalPreorder(ByOrder)
    ensures forall a: MenuTree, b: MenuTree :: ByOrder(a, b) && ByOrder(b, a) <==> a.menu.order == b.menu.order
  {
    forall a: MenuTree, b: MenuTree | ByOrder(a, b) && ByOrder(b, a) ensures a.menu.order == b.menu.order {
      LexAntisymmetric(a.menu.order, b.menu.order);
    }
    forall a: MenuTree, b: MenuTree ensures ByOrder(a, b) || ByOrder(b, a) {
      LexTotal(a.menu.order, b.menu.order);
    }
    forall a: MenuTree, b: MenuTree, c: MenuTree | ByOrder(a, b) && ByOrder(b, c) ensures ByOrder(a, c) {
      LexTransitive(a.menu.order, b.menu.order, c.menu.order);
    }
  }

  /** Every level of the forest is in `order` order. */
  predicate AllSorted(ts: seq<MenuTree>)
    decreases ts
  {
    && Sorted(ts, ByOrder)
    && forall i :: 0 <= i < |ts| ==> AllSorted(ts[i].children)
  }

  // ---------------------------------------------------------------- what a forest holds

  /** The ids of the menus of one level, with their multiplicities. */
  function LevelIds(ts: seq<MenuTree>): multiset<MenuId>
  {
    if ts == [] then multiset{} else multiset{ts[0].menu.id} + LevelIds(ts[1..])
  }

  /**
   * The multiset of `f(menu, ids of its children)` over every menu of the
   * forest, at any depth.  It does not depend on the order of any level.
   */
  function Census<U(==)>(ts: seq<MenuTree>, f: (Menu, multiset<MenuId>) -> U): multiset<U>
    decreases ts
  {
    if ts == [] then multiset{}
    else multiset{f(ts[0].menu, LevelIds(ts[0].children))} + Census(ts[0].children, f) + Census(ts[1..], f)
  }

  function IdOf(m: Menu, children: multiset<MenuId>): MenuId
  {
    m.id
  }

  function NodeOf(m: Menu, children: multiset<MenuId>): (Menu, multiset<MenuId>)
  {
    (m, children)
  }

  /** How many times each id occurs in the forest. */
  function Ids(ts: seq<MenuTree>): multiset<MenuId>
  {
    Census(ts, IdOf)
  }

  /** Every menu of the forest together with the ids of its children. */
  function Nodes(ts: seq<MenuTree>): multiset<(Menu, multiset<MenuId>)>
  {
    Census(ts, NodeOf)
  }

  lemma {:induction false} CensusConcat<U>(a: seq<MenuTree>, b: seq<MenuTree>, f: (Menu, multiset<MenuId>) -> U)
    ensures Census(a + b, f) == Census(a, f) + Census(b, f)
  {
    if a == [] {
      assert a + b == b;
    } else {
      assert (a + b)[0] == a[0];
      assert (a + b)[1..] == a[1..] + b;
      CensusConcat(a[1..], b, f);
    }
  }

  lemma {:induction false} LevelIdsConcat(a: seq<MenuTree>, b: seq<MenuTree>)
    ensures LevelIds(a + b) == LevelIds(a) + LevelIds(b)
  {
    if a == [] {
      assert a + b == b;
    } else {
      assert (a + b)[0] == a[0];
      assert (a + b)[1..] == a[1..] + b;
      LevelIdsConcat(a[1..], b);
    }
  }

  /** Removing the tree at `i` removes its census. */
  lemma {:induction false} CensusRemove<U>(ts: seq<MenuTree>, i: nat, f: (Menu, multiset<MenuId>) -> U)
    requires i < |ts|
    ensures Census(ts, f) == Census(ts[..i] + ts[i + 1..], f) + Census([ts[i]], f)
  {
    var rest := ts[..i] + ts[i + 1..];
    CensusSingle(ts[i], f);
    if i == 0 {
      assert rest == ts[1..];
    } else {
      var tail := ts[1..];
      CensusRemove(tail, i - 1, f);
      RemoveUnderHead(ts, i);
      CensusCons(ts[0], tail[..i - 1] + tail[i..], f);
      CensusCons(ts[0], tail, f);
      var h := multiset{f(ts[0].menu, LevelIds(ts[0].children))} + Census(ts[0].children, f);
      assert Census(ts, f) == h + Census(tail, f);
      assert Census(rest, f) == h + Census(tail[..i - 1] + tail[i..], f);
    }
  }

  lemma CensusCons<U>(t: MenuTree, ts: seq<MenuTree>, f: (Menu, multiset<MenuId>) -> U)
    ensures Census([t] + ts, f) == multiset{f(t.menu, LevelIds(t.children))} + Census(t.children, f) + Census(ts, f)
  {
    assert ([t] + ts)[0] == t && ([t] + ts)[1..] == ts;
  }

  /** Removing the tree at `i` removes its id from the level. */
  lemma {:induction false} LevelIdsRemove(ts: seq<MenuTree>, i: nat)
    requires i < |ts|
    ensures LevelIds(ts) == LevelIds(ts[..i] + ts[i + 1..]) + multiset{ts[i].menu.id}
  {
    var rest := ts[..i] + ts[i + 1..];
    if i == 0 {
      assert rest == ts[1..];
    } else {
      LevelIdsRemove(ts[1..], i - 1);
      assert rest[0] == ts[0];
      assert rest[1..] == ts[1..][..i - 1] + ts[1..][i..];
    }
  }

  /** Reordering one level does not change the census. */
  lemma {:induction false} CensusPermutation<U>(a: seq<MenuTree>, b: seq<MenuTree>, f: (Menu, multiset<MenuId>) -> U)
    requires multiset(a) == multiset(b)
    ensures Census(a, f) == Census(b, f)
  {
    if a != [] {
      assert a[0] in multiset(b);
      var i :| 0 <= i < |b| && b[i] == a[0];
      var rest := b[..i] + b[i + 1..];
      MultisetRemove(b, i);
      assert a == [a[0]] + a[1..];
      CensusPermutation(a[1..], rest, f);
      CensusRemove(b, i, f);
      CensusSingle(a[0], f);
    }
  }

  /** Reordering one level does not change the ids of that level. */
  lemma {:induction false} LevelIdsPermutation(a: seq<MenuTree>, b: seq<MenuTree>)
    requires multiset(a) == multiset(b)
    ensures LevelIds(a) == LevelIds(b)
  {
    if a != [] {
      assert a[0] in multiset(b);
      var i :| 0 <= i < |b| && b[i] == a[0];
      var rest := b[..i] + b[i + 1..];
      MultisetRemove(b, i);
      assert a == [a[0]] + a[1..];
      LevelIdsPermutation(a[1..], rest);
      LevelIdsRemove(b, i);
    }
  }

  /** Replacing one tree by another with the same census and id leaves the forest's census alone. */
  lemma CensusUpdate<U>(ts: seq<MenuTree>, i: nat, t: MenuTree, f: (Menu, multiset<MenuId>) -> U)
    requires i < |ts|
    requires Census([t], f) == Census([ts[i]], f)
    requires t.menu.id == ts[i].menu.id
    ensures Census(ts[i := t], f) == Census(ts, f)
    ensures LevelIds(ts[i := t]) == LevelIds(ts)
  {
    var us := ts[i := t];
    assert us[..i] == ts[..i] && us[i + 1..] == ts[i + 1..] && us[i] == t;
    CensusRemove(ts, i, f);
    CensusRemove(us, i, f);
    LevelIdsRemove(ts, i);
    LevelIdsRemove(us, i);
  }

  lemma CensusSingle<U>(t: MenuTree, f: (Menu, multiset<MenuId>) -> U)
    ensures Census([t], f) == multiset{f(t.menu, LevelIds(t.children))} + Census(t.children, f)
  {
    assert [t][1..] == [];
  }

  /** Giving a menu children with the same census and the same ids leaves its own census alone. */
  lemma ReplaceChildren<U>(t: MenuTree, cs: seq<MenuTree>, f: (Menu, multiset<MenuId>) -> U)
    requires Census(cs, f) == Census(t.children, f)
    requires LevelIds(cs) == LevelIds(t.children)
    ensures Census([t.(children := cs)], f) == Census([t], f)
  {
    CensusSingle(t, f);
    CensusSingle(t.(children := cs), f);
  }

  // ---------------------------------------------------------------- sortMenus

  /** `[...menus].sort(...)`: a sorted copy of one level. */
  function SortLevel(menus: seq<MenuTree>): (r: seq<MenuTree>)
    ensures Sorted(r, ByOrder)
    ensures multiset(r) == multiset(menus)
  {
    ByOrderIsTotalPreorder();
    SortBy(menus, ByOrder)
  }

  /** Sortedness of a level depends only on the menus, not on their children. */
  lemma SameMenusKeepSorted(a: seq<MenuTree>, b: seq<MenuTree>)
    requires Sorted(a, ByOrder)
    requires |a| == |b| && forall j :: 0 <= j < |a| ==> a[j].menu == b[j].menu
    ensures Sorted(b, ByOrder)
  {
    forall j, k | 0 <= j < k < |b| ensures ByOrder(b[j], b[k]) {
      assert ByOrder(a[j], a[k]);
    }
  }

  /**
   * `sortMenus`: a sorted copy of the level, then each menu that has
   * children gets them sorted the same way.  Only the order of each level
   * changes: the same menus appear at the same depth under the same
   * parents, each with the same children.
   */
  method SortMenus(menus: seq<MenuTree>) returns (sorted: seq<MenuTree>)
    decreases menus, 1
    ensures |sorted| == |menus|
    ensures AllSorted(sorted)
    ensures LevelIds(sorted) == LevelIds(menus)
    ensures Ids(sorted) == Ids(menus)
    ensures Nodes(sorted) == Nodes(menus)
  {
    var level := SortLevel(menus);
    assert |level| == |multiset(level)| == |multiset(menus)| == |menus|;
    LevelIdsPermutation(menus, level);
    CensusPermutation(menus, level, IdOf);
    CensusPermutation(menus, level, NodeOf);
    sorted := SortChildren(level, menus);
    SameMenusKeepSorted(level, sorted);
    assert ChildrenSorted(sorted, |sorted|);
  }

  /** Giving the menu at `i` children with the same ids and census changes nothing the level records. */
  lemma ReplaceChildrenAt(ts: seq<MenuTree>, i: nat, cs: seq<MenuTree>)
    requires i < |ts|
    requires LevelIds(cs) == LevelIds(ts[i].children)
    requires Ids(cs) == Ids(ts[i].children) && Nodes(cs) == Nodes(ts[i].children)
    ensures LevelIds(ts[i := ts[i].(children := cs)]) == LevelIds(ts)
    ensures Ids(ts[i := ts[i].(children := cs)]) == Ids(ts)
    ensures Nodes(ts[i := ts[i].(children := cs)]) == Nodes(ts)
  {
    var t := ts[i].(children := cs);
    ReplaceChildren(ts[i], cs, IdOf);
    ReplaceChildren(ts[i], cs, NodeOf);
    CensusUpdate(ts, i, t, IdOf);
    CensusUpdate(ts, i, t, NodeOf);
  }

  /** The children of the first `n` menus of a level are sorted at every depth. */
  ghost predicate ChildrenSorted(ts: seq<MenuTree>, n: int)
  {
    forall j :: 0 <= j < n && j < |ts| ==> AllSorted(ts[j].children)
  }

  lemma ChildrenSortedStep(prev: seq<MenuTree>, ts: seq<MenuTree>, i: nat)
    requires i < |ts| == |prev|
    requires ChildrenSorted(prev, i)
    requires forall j :: 0 <= j < i ==> ts[j] == prev[j]
    requires AllSorted(ts[i].children)
    ensures ChildrenSorted(ts, i + 1)
  {
    forall j | 0 <= j < i + 1 && j < |ts| ensures AllSorted(ts[j].children) {
      if j < i {
        assert ts[j] == prev[j];
      }
    }
  }

  /**
   * Where the `forEach` of `sortMenus` stands after `i` menus: only the
   * children of those menus have been replaced, by sorted forests with the
   * same contents.
   */
  ghost predicate SortedUpTo(level: seq<MenuTree>, sorted: seq<MenuTree>, i: int)
  {
    && 0 <= i <= |sorted| == |level|
    && (forall j :: 0 <= j < |sorted| ==> sorted[j].menu == level[j].menu)
    && (forall j :: i <= j < |sorted| ==> sorted[j] == level[j])
    && ChildrenSorted(sorted, i)
    && LevelIds(sorted) == LevelIds(level)
    && Ids(sorted) == Ids(level)
    && Nodes(sorted) == Nodes(level)
  }

  /** Replacing the children of menu `i` by a sorted forest with the same contents advances the `forEach`. */
  lemma SortedUpToStep(level: seq<MenuTree>, prev: seq<MenuTree>, i: nat, cs: seq<MenuTree>)
    requires SortedUpTo(level, prev, i) && i < |prev|
    requires AllSorted(cs)
    requires LevelIds(cs) == LevelIds(prev[i].children)
    requires Ids(cs) == Ids(prev[i].children) && Nodes(cs) == Nodes(prev[i].children)
    ensures SortedUpTo(level, prev[i := prev[i].(children := cs)], i + 1)
  {
    var ts := prev[i := prev[i].(children := cs)];
    StepKeepsMenus(level, prev, i, ts[i]);
    ReplaceChildrenAt(prev, i, cs);
    ChildrenSortedStep(prev, ts, i);
  }

  lemma StepKeepsMenus(level: seq<MenuTree>, prev: seq<MenuTree>, i: nat, t: MenuTree)
    requires i < |prev| == |level|
    requires forall j :: 0 <= j < |prev| ==> prev[j].menu == level[j].menu
    requires forall j :: i <= j < |prev| ==> prev[j] == level[j]
    requires t.menu == prev[i].menu
    ensures forall j :: 0 <= j < |prev| ==> prev[i := t][j].menu == level[j].menu
    ensures forall j :: i + 1 <= j < |prev| ==> prev[i := t][j] == level[j]
    ensures forall j :: 0 <= j < i ==> prev[i := t][j] == prev[j]
  {
  }

  /** A menu without children needs nothing sorted. */
  lemma SortedUpToSkip(level: seq<MenuTree>, sorted: seq<MenuTree>, i: nat)
    requires SortedUpTo(level, sorted, i) && i < |sorted|
    requires sorted[i].children == []
    ensures SortedUpTo(level, sorted, i + 1)
  {
    ChildrenSortedStep(sorted, sorted, i);
  }

  /** The `forEach` of `sortMenus`: the children of each menu of the sorted level are sorted in turn. */
  method SortChildren(level: seq<MenuTree>, ghost menus: seq<MenuTree>) returns (sorted: seq<MenuTree>)
    requires multiset(level) == multiset(menus)
    decreases menus, 0
    ensures |sorted| == |level|
    ensures forall j :: 0 <= j < |sorted| ==> sorted[j].menu == level[j].menu
    ensures ChildrenSorted(sorted, |sorted|)
    ensures LevelIds(sorted) == LevelIds(level)
    ensures Ids(sorted) == Ids(level)
    ensures Nodes(sorted) == Nodes(level)
  {
    sorted := level;
    var i := 0;
    while i < |sorted|
      invariant SortedUpTo(level, sorted, i)
      decreases |sorted| - i
    {
      if |sorted[i].children| > 0 {
        assert sorted[i] == level[i] && level[i] in multiset(menus);
        var children := SortMenus(sorted[i].children);
        SortedUpToStep(level, sorted, i, children);
        sorted := sorted[i := sorted[i].(children := children)];
      } else {
        SortedUpToSkip(level, sorted, i);
      }
      i := i + 1;
    }
  }
}
