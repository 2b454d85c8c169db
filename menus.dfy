/**
 * The menu handler: the active menus granted to the caller's role are put
 * in a map keyed by id, each is hung under its parent when the parent is
 * in the map and becomes a top-level menu otherwise, and every level of
 * the resulting tree is sorted by the `order` field.
 *
 * The objects of the map are modelled as `Node`s whose `children` hold the
 * ids of the objects pushed into them; the response is the serialisation of
 * the objects reachable from the top-level list, a `MenuTree`.
 */
module Menus {
  import opened Accounts
  import opened Sequences
  import opened MenuTrees

  /** A row of `role_menus` with the menu joined to it (absent when the join finds none). */
  datatype RoleMenu = RoleMenu(menu: Option<Menu>)

  /** A `MenuWithChildren` object in the map: its menu and the ids of the objects in its `children`. */
  datatype Node = Node(menu: Menu, children: seq<MenuId>)

  // ---------------------------------------------------------------- the map of active menus

  /** `rm.menu && rm.menu.isActive`. */
  predicate Admitted(rm: RoleMenu)
  {
    rm.menu.Some? && rm.menu.value.isActive
  }

  /** The admitted row at `i` is the last admitted row for menu `k`. */
  predicate LastAdmitted(rms: seq<RoleMenu>, i: int, k: MenuId)
  {
    && 0 <= i < |rms| && Admitted(rms[i]) && rms[i].menu.value.id == k
    && forall j :: i < j < |rms| ==> !(Admitted(rms[j]) && rms[j].menu.value.id == k)
  }

  /**
   * The map after the first `forEach`, with its keys in iteration order:
   * a key keeps the place of its first `set`, and its value is a fresh
   * object for the last admitted row with that id, with no children.
   */
  function Collect(rms: seq<RoleMenu>): (out: (seq<MenuId>, map<MenuId, Node>))
    ensures Distinct(out.0)
    ensures forall k :: k in out.0 <==> k in out.1
    ensures forall k :: k in out.1 ==>
      out.1[k].menu.id == k && out.1[k].menu.isActive && out.1[k].children == []
  {
    if rms == [] then ([], map[])
    else
      var (keys, nodes) := Collect(rms[..|rms| - 1]);
      var rm := rms[|rms| - 1];
      if !Admitted(rm) then (keys, nodes)
      else
        var m := rm.menu.value;
        (if m.id in nodes then keys else keys + [m.id], nodes[m.id := Node(m, [])])
  }

  /** The map holds exactly the ids of the admitted rows. */
  lemma {:induction false} CollectAdmits(rms: seq<RoleMenu>)
    ensures forall k :: k in Collect(rms).1 <==> exists i :: 0 <= i < |rms| && Admitted(rms[i]) && rms[i].menu.value.id == k
  {
    if rms != [] {
      var init := rms[..|rms| - 1];
      var rm := rms[|rms| - 1];
      CollectAdmits(init);
      var nodes := Collect(rms).1;
      var nodes0 := Collect(init).1;
      assert nodes.Keys == if Admitted(rm) then nodes0.Keys + {rm.menu.value.id} else nodes0.Keys;
      forall k ensures k in nodes <==> exists i :: 0 <= i < |rms| && Admitted(rms[i]) && rms[i].menu.value.id == k {
        if k in nodes && !(Admitted(rm) && rm.menu.value.id == k) {
          var i :| 0 <= i < |init| && Admitted(init[i]) && init[i].menu.value.id == k;
          assert rms[i] == init[i];
        }
        if exists i :: 0 <= i < |rms| && Admitted(rms[i]) && rms[i].menu.value.id == k {
          var i :| 0 <= i < |rms| && Admitted(rms[i]) && rms[i].menu.value.id == k;
          if i < |init| {
            assert init[i] == rms[i];
          }
        }
      }
    }
  }

  /** Each id is mapped to the menu of the last admitted row carrying it. */
  lemma {:induction false} CollectKeepsLastAdmitted(rms: seq<RoleMenu>)
    ensures forall k :: k in Collect(rms).1 ==> exists i :: LastAdmitted(rms, i, k) && Collect(rms).1[k].menu == rms[i].menu.value
  {
    if rms != [] {
      var init := rms[..|rms| - 1];
      var rm := rms[|rms| - 1];
      CollectKeepsLastAdmitted(init);
      var nodes := Collect(rms).1;
      var nodes0 := Collect(init).1;
      forall k | k in nodes
        ensures exists i :: LastAdmitted(rms, i, k) && nodes[k].menu == rms[i].menu.value
      {
        if Admitted(rm) && rm.menu.value.id == k {
          assert LastAdmitted(rms, |rms| - 1, k);
        } else {
          assert k in nodes0 && nodes[k] == nodes0[k];
          var i :| LastAdmitted(init, i, k) && nodes0[k].menu == init[i].menu.value;
          assert rms[i] == init[i];
          forall j | i < j < |rms| ensures !(Admitted(rms[j]) && rms[j].menu.value.id == k) {
            if j < |init| {
              assert rms[j] == init[j];
            }
          }
          assert LastAdmitted(rms, i, k);
        }
      }
    }
  }

  /** The first `forEach` over the role's menus, filling `menuMap`. */
  method CollectActiveMenus(roleMenus: seq<RoleMenu>) returns (keys: seq<MenuId>, menuMap: map<MenuId, Node>)
    ensures (keys, menuMap) == Collect(roleMenus)
  {
    keys, menuMap := [], map[];
    var i := 0;
    while i < |roleMenus|
      invariant 0 <= i <= |roleMenus|
      invariant (keys, menuMap) == Collect(roleMenus[..i])
    {
      assert roleMenus[..i + 1][..i] == roleMenus[..i];
      var rm := roleMenus[i];
      if rm.menu.Some? && rm.menu.value.isActive {
        if rm.menu.value.id !in menuMap {
          keys := keys + [rm.menu.value.id];
        }
        menuMap := menuMap[rm.menu.value.id := Node(rm.menu.value, [])];
      }
      i := i + 1;
    }
    assert roleMenus[..i] == roleMenus;
  }

  // ---------------------------------------------------------------- hanging menus under their parents

  /** `menu.parentId && menuMap.has(menu.parentId)`: an empty `parentId` is falsy. */
  predicate HasParent(m: Menu, g: map<MenuId, Node>)
  {
    m.parentId.Some? && m.parentId.value != "" && m.parentId.value in g
  }

  /** The keys, in iteration order, of the menus hung under `p`. */
  function ChildrenOf(keys: seq<MenuId>, g: map<MenuId, Node>, p: MenuId): seq<MenuId>
    requires forall k :: k in keys ==> k in g
  {
    if keys == [] then []
    else
      var k := keys[|keys| - 1];
      ChildrenOf(keys[..|keys| - 1], g, p) + if HasParent(g[k].menu, g) && g[k].menu.parentId.value == p then [k] else []
  }

  /** The keys, in iteration order, of the menus that become top-level menus. */
  function RootsOf(keys: seq<MenuId>, g: map<MenuId, Node>): seq<MenuId>
    requires forall k :: k in keys ==> k in g
  {
    if keys == [] then []
    else
      var k := keys[|keys| - 1];
      RootsOf(keys[..|keys| - 1], g) + if !HasParent(g[k].menu, g) then [k] else []
  }

  /** The menus hung under `p` are those whose parent is `p`, each once. */
  lemma {:induction false} ChildrenOfSpec(keys: seq<MenuId>, g: map<MenuId, Node>, p: MenuId)
    requires forall k :: k in keys ==> k in g
    ensures forall c :: c in ChildrenOf(keys, g, p) <==> c in keys && HasParent(g[c].menu, g) && g[c].menu.parentId.value == p
    ensures Distinct(keys) ==> Distinct(ChildrenOf(keys, g, p))
  {
    if keys != [] {
      var init := keys[..|keys| - 1];
      assert keys == init + [keys[|keys| - 1]];
      ChildrenOfSpec(init, g, p);
    }
  }

  /** The top-level menus are those without a parent in the map, each once. */
  lemma {:induction false} RootsOfSpec(keys: seq<MenuId>, g: map<MenuId, Node>)
    requires forall k :: k in keys ==> k in g
    ensures forall c :: c in RootsOf(keys, g) <==> c in keys && !HasParent(g[c].menu, g)
    ensures Distinct(keys) ==> Distinct(RootsOf(keys, g))
  {
    if keys != [] {
      var init := keys[..|keys| - 1];
      assert keys == init + [keys[|keys| - 1]];
      RootsOfSpec(init, g);
    }
  }

  lemma ChildrenOfSnoc(keys: seq<MenuId>, k: MenuId, g: map<MenuId, Node>, p: MenuId)
    requires forall c :: c in keys + [k] ==> c in g
    ensures ChildrenOf(keys + [k], g, p)
         == ChildrenOf(keys, g, p) + (if HasParent(g[k].menu, g) && g[k].menu.parentId.value == p then [k] else [])
  {
    assert (keys + [k])[..|keys|] == keys;
  }

  lemma RootsOfSnoc(keys: seq<MenuId>, k: MenuId, g: map<MenuId, Node>)
    requires forall c :: c in keys + [k] ==> c in g
    ensures RootsOf(keys + [k], g) == RootsOf(keys, g) + (if !HasParent(g[k].menu, g) then [k] else [])
  {
    assert (keys + [k])[..|keys|] == keys;
  }

  /** After the first `prefix` keys are linked: every object's children are the objects hung under it so far. */
  ghost predicate LinkedUpTo(linked: map<MenuId, Node>, menuMap: map<MenuId, Node>, prefix: seq<MenuId>)
    requires forall k :: k in prefix ==> k in menuMap
  {
    && linked.Keys == menuMap.Keys
    && forall q :: q in menuMap ==>
         linked[q] == menuMap[q].(children := menuMap[q].children + ChildrenOf(prefix, menuMap, q))
  }

  /** The map after the keys of `prefix`, in order, have been pushed onto their parents' children. */
  function Hung(menuMap: map<MenuId, Node>, prefix: seq<MenuId>): map<MenuId, Node>
    requires forall k :: k in prefix ==> k in menuMap
  {
    if prefix == [] then menuMap
    else
      var k := prefix[|prefix| - 1];
      var before := Hung(menuMap, prefix[..|prefix| - 1]);
      var m := menuMap[k].menu;
      if HasParent(m, menuMap) && m.parentId.value in before then
        before[m.parentId.value := before[m.parentId.value].(children := before[m.parentId.value].children + [k])]
      else
        before
  }

  /** Hanging the keys of `prefix` gives every object the children hung under it, and nothing else changes. */
  lemma {:induction false} HungIsLinked(menuMap: map<MenuId, Node>, prefix: seq<MenuId>)
    requires forall k :: k in prefix ==> k in menuMap
    ensures LinkedUpTo(Hung(menuMap, prefix), menuMap, prefix)
  {
    if prefix != [] {
      var init := prefix[..|prefix| - 1];
      var k := prefix[|prefix| - 1];
      assert prefix == init + [k];
      HungIsLinked(menuMap, init);
      var before := Hung(menuMap, init);
      var after := Hung(menuMap, prefix);
      forall q | q in menuMap
        ensures after[q] == menuMap[q].(children := menuMap[q].children + ChildrenOf(prefix, menuMap, q))
      {
        ChildrenOfSnoc(init, k, menuMap, q);
      }
    }
  }

  /** One more push: the object of `k` still holds its own menu, so its parent is looked up as before. */
  lemma HungSnoc(menuMap: map<MenuId, Node>, prefix: seq<MenuId>, k: MenuId)
    requires forall q :: q in prefix ==> q in menuMap
    requires k in menuMap
    ensures k in Hung(menuMap, prefix) && Hung(menuMap, prefix)[k].menu == menuMap[k].menu
    ensures Hung(menuMap, prefix).Keys == menuMap.Keys
    ensures Hung(menuMap, prefix + [k]) ==
      var before := Hung(menuMap, prefix);
      var m := menuMap[k].menu;
      if HasParent(m, menuMap) then
        before[m.parentId.value := before[m.parentId.value].(children := before[m.parentId.value].children + [k])]
      else
        before
  {
    HungIsLinked(menuMap, prefix);
    assert (prefix + [k])[..|prefix|] == prefix;
  }

  /**
   * The second `forEach`: every menu with a parent in the map is pushed
   * onto the parent's `children`, every other one onto `rootMenus`.  The
   * objects are updated in place, so the map's menus and keys stay the same.
   */
  method LinkMenus(keys: seq<MenuId>, menuMap: map<MenuId, Node>) returns (linked: map<MenuId, Node>, roots: seq<MenuId>)
    requires forall k :: k in keys ==> k in menuMap
    ensures LinkedUpTo(linked, menuMap, keys)
    ensures roots == RootsOf(keys, menuMap)
  {
    linked, roots := menuMap, [];
    var i := 0;
    while i < |keys|
      invariant 0 <= i <= |keys|
      invariant linked == Hung(menuMap, keys[..i])
      invariant roots == RootsOf(keys[..i], menuMap)
    {
      var k := keys[i];
      assert keys[..i + 1] == keys[..i] + [k];
      RootsOfSnoc(keys[..i], k, menuMap);
      HungSnoc(menuMap, keys[..i], k);
      var menu := linked[k].menu;
      if menu.parentId.Some? && menu.parentId.value != "" && menu.parentId.value in linked {
        var p := menu.parentId.value;
        linked := linked[p := linked[p].(children := linked[p].children + [k])];
      } else {
        roots := roots + [k];
      }
      i := i + 1;
    }
    assert keys[..i] == keys;
    HungIsLinked(menuMap, keys);
  }

  // ---------------------------------------------------------------- the tree the objects form

  /** The object a menu is pushed into, if any. */
  function Parent(g: map<MenuId, Node>, k: MenuId): Option<MenuId>
    requires k in g
  {
    if HasParent(g[k].menu, g) then Some(g[k].menu.parentId.value) else None
  }

  /**
   * The objects after linking: each is keyed by its id, each object's
   * children are distinct and name it as their parent, and each object with
   * a parent is among that parent's children.
   */
  ghost predicate Linked(g: map<MenuId, Node>)
  {
    && (forall k :: k in g ==> g[k].menu.id == k)
    && (forall p :: p in g ==> Distinct(g[p].children))
    && (forall p, c :: p in g && c in g[p].children ==> c in g && Parent(g, c) == Some(p))
    && (forall c :: c in g && Parent(g, c).Some? ==> c in g[Parent(g, c).value].children)
  }

  /** Linking the collected map gives linked objects with the same menus, hence the same parents. */
  lemma LinkingLinks(keys: seq<MenuId>, menuMap: map<MenuId, Node>, linked: map<MenuId, Node>)
    requires Distinct(keys)
    requires forall k :: k in keys <==> k in menuMap
    requires forall k :: k in menuMap ==> menuMap[k].menu.id == k && menuMap[k].children == []
    requires LinkedUpTo(linked, menuMap, keys)
    ensures Linked(linked)
    ensures forall k :: k in linked ==> Parent(linked, k) == Parent(menuMap, k)
  {
    forall k | k in linked ensures Parent(linked, k) == Parent(menuMap, k) {
      assert linked[k].menu == menuMap[k].menu;
    }
    forall p | p in linked
      ensures linked[p].children == ChildrenOf(keys, menuMap, p)
      ensures Distinct(linked[p].children)
      ensures forall c :: c in linked[p].children <==> c in menuMap && Parent(menuMap, c) == Some(p)
    {
      ChildrenOfSpec(keys, menuMap, p);
    }
  }

  /**
   * A chain of objects from one without a parent down to the last, each the
   * parent of the next.
   */
  ghost predicate IsRootPath(g: map<MenuId, Node>, path: seq<MenuId>)
  {
    && |path| > 0
    && (forall i :: 0 <= i < |path| ==> path[i] in g)
    && Parent(g, path[0]) == None
    && (forall i :: 0 < i < |path| ==> Parent(g, path[i]) == Some(path[i - 1]))
    && Distinct(path)
  }

  /** Following `parentId` from `k` through the map ends at an object without a parent. */
  ghost predicate ReachesTop(g: map<MenuId, Node>, k: MenuId)
  {
    exists path :: IsRootPath(g, path) && path[|path| - 1] == k
  }

  lemma RootPathFits(g: map<MenuId, Node>, path: seq<MenuId>)
    requires IsRootPath(g, path)
    ensures |path| <= |g|
  {
    DistinctWithin(path, g.Keys);
  }

  lemma RootPathPrefix(g: map<MenuId, Node>, path: seq<MenuId>, n: int)
    requires IsRootPath(g, path) && 0 < n <= |path|
    ensures IsRootPath(g, path[..n])
  {
  }

  /** A child of the last object of a root path extends it; it cannot already be on it. */
  lemma RootPathExtends(g: map<MenuId, Node>, path: seq<MenuId>, c: MenuId)
    requires Linked(g) && IsRootPath(g, path)
    requires c in g[path[|path| - 1]].children
    ensures IsRootPath(g, path + [c])
  {
    var q := path + [c];
    assert c in g && Parent(g, c) == Some(path[|path| - 1]);
    forall i, j | 0 <= i < j < |q| ensures q[i] != q[j] {
      if j == |path| && 0 < i {
        assert Parent(g, path[i]) == Some(path[i - 1]);
      }
    }
  }

  lemma RootPathChildren(g: map<MenuId, Node>, path: seq<MenuId>)
    requires Linked(g) && IsRootPath(g, path)
    ensures forall c :: c in g[path[|path| - 1]].children ==> IsRootPath(g, path + [c])
  {
    forall c | c in g[path[|path| - 1]].children ensures IsRootPath(g, path + [c]) {
      RootPathExtends(g, path, c);
    }
  }

  /** The last object of a root path has no parent when it is alone, and its predecessor as parent otherwise. */
  lemma RootPathLast(g: map<MenuId, Node>, path: seq<MenuId>)
    requires IsRootPath(g, path)
    ensures Parent(g, path[|path| - 1]) == if |path| == 1 then None else Some(path[|path| - 2])
  {
  }

  /** Each object has one root path at most: parents are unique. */
  lemma {:induction false} RootPathUnique(g: map<MenuId, Node>, p: seq<MenuId>, q: seq<MenuId>)
    requires IsRootPath(g, p) && IsRootPath(g, q) && p[|p| - 1] == q[|q| - 1]
    ensures p == q
    decreases |p|
  {
    RootPathLast(g, p);
    RootPathLast(g, q);
    if |p| == 1 && |q| == 1 {
      assert p == [p[0]] && q == [q[0]];
    } else if |p| > 1 && |q| > 1 {
      RootPathPrefix(g, p, |p| - 1);
      RootPathPrefix(g, q, |q| - 1);
      RootPathUnique(g, p[..|p| - 1], q[..|q| - 1]);
      assert p == p[..|p| - 1] + [p[|p| - 1]];
      assert q == q[..|q| - 1] + [q[|q| - 1]];
    }
  }

  // ---------------------------------------------------------------- parent links without cycles

  /** Following `parentId` `n` times from `k` through the map, as far as it goes. */
  function Up(g: map<MenuId, Node>, k: MenuId, n: nat): (r: Option<MenuId>)
    requires k in g
    ensures r.Some? ==> r.value in g
  {
    if n == 0 then Some(k)
    else
      match Up(g, k, n - 1)
      case None => None
      case Some(a) => Parent(g, a)
  }

  /** No menu is its own ancestor. */
  ghost predicate NoCycle(g: map<MenuId, Node>)
  {
    forall k, n :: k in g && 0 < n ==> Up(g, k, n) != Some(k)
  }

  lemma {:induction false} UpAdd(g: map<MenuId, Node>, k: MenuId, i: nat, j: nat)
    requires k in g
    ensures Up(g, k, i + j) == if Up(g, k, i).None? then None else Up(g, Up(g, k, i).value, j)
    decreases j
  {
    if j > 0 {
      UpAdd(g, k, i, j - 1);
    }
  }

  /** Without cycles the ancestors of a menu are all different. */
  lemma UpDistinct(g: map<MenuId, Node>, k: MenuId, i: nat, j: nat)
    requires NoCycle(g) && k in g && i < j && Up(g, k, j).Some?
    ensures Up(g, k, i) != Up(g, k, j)
  {
    UpAdd(g, k, i, j - i);
    var a := Up(g, k, i);
    if a.Some? {
      assert Up(g, a.value, j - i) == Up(g, k, j);
    }
  }

  /** Once the climb stops it stays stopped. */
  lemma UpStops(g: map<MenuId, Node>, k: MenuId, i: nat, j: nat)
    requires k in g && i <= j && Up(g, k, i).None?
    ensures Up(g, k, j).None?
  {
    UpAdd(g, k, i, j - i);
  }

  /** A climb that stops has a last step, an object without a parent. */
  lemma {:induction false} ClimbTop(g: map<MenuId, Node>, k: MenuId, n: nat)
    requires k in g && Up(g, k, n).None?
    ensures exists m :: 0 <= m < n && Up(g, k, m).Some? && Parent(g, Up(g, k, m).value) == None
  {
    if Up(g, k, n - 1).Some? {
      assert Parent(g, Up(g, k, n - 1).value) == None;
    } else {
      ClimbTop(g, k, n - 1);
    }
  }

  /** Without cycles, the climb from any menu stops within as many steps as there are menus. */
  lemma ClimbEnds(g: map<MenuId, Node>, k: MenuId) returns (n: nat)
    requires NoCycle(g) && k in g
    ensures n <= |g| && Up(g, k, n).Some? && Parent(g, Up(g, k, n).value) == None
  {
    if forall i :: 0 <= i <= |g| ==> Up(g, k, i).Some? {
      var s := seq(|g| + 1, i requires 0 <= i <= |g| => Up(g, k, i).value);
      forall i, j | 0 <= i < j < |s| ensures s[i] != s[j] {
        UpDistinct(g, k, i, j);
      }
      DistinctWithin(s, g.Keys);
      assert false;
    }
    var stop :| 0 <= stop <= |g| && Up(g, k, stop).None?;
    ClimbTop(g, k, stop);
    n :| 0 <= n < stop && Up(g, k, n).Some? && Parent(g, Up(g, k, n).value) == None;
  }

  /** `q` lists the first `n + 1` steps of the climb from `k`, top first. */
  ghost predicate ClimbOf(g: map<MenuId, Node>, k: MenuId, n: nat, q: seq<MenuId>)
    requires k in g
  {
    |q| == n + 1 && forall i :: 0 <= i < |q| ==> Up(g, k, n - i) == Some(q[i])
  }

  lemma ClimbLinks(g: map<MenuId, Node>, k: MenuId, n: nat, q: seq<MenuId>)
    requires k in g && ClimbOf(g, k, n, q)
    ensures forall i :: 0 < i < |q| ==> q[i] in g && Parent(g, q[i]) == Some(q[i - 1])
  {
    forall i | 0 < i < |q| ensures q[i] in g && Parent(g, q[i]) == Some(q[i - 1]) {
      assert Up(g, k, n - i) == Some(q[i]) && Up(g, k, n - i + 1) == Some(q[i - 1]);
    }
  }

  lemma ClimbDistinct(g: map<MenuId, Node>, k: MenuId, n: nat, q: seq<MenuId>)
    requires NoCycle(g) && k in g && ClimbOf(g, k, n, q)
    ensures Distinct(q)
  {
    forall i, j | 0 <= i < j < |q| ensures q[i] != q[j] {
      assert Up(g, k, n - i) == Some(q[i]) && Up(g, k, n - j) == Some(q[j]);
      UpDistinct(g, k, n - j, n - i);
    }
  }

  /** Without cycles, every menu of the map reaches a menu without a parent. */
  lemma AcyclicReachesTop(g: map<MenuId, Node>, k: MenuId)
    requires NoCycle(g) && k in g
    ensures ReachesTop(g, k)
  {
    var n := ClimbEnds(g, k);
    forall i | 0 <= i <= n ensures Up(g, k, i).Some? {
      if Up(g, k, i).None? {
        UpStops(g, k, i, n);
      }
    }
    var q := seq(n + 1, i requires 0 <= i <= n => Up(g, k, n - i).value);
    assert ClimbOf(g, k, n, q);
    ClimbLinks(g, k, n, q);
    ClimbDistinct(g, k, n, q);
    assert q[0] in g && Parent(g, q[0]) == None;
    assert IsRootPath(g, q) && q[|q| - 1] == k;
  }

  /** Only menus of the map reach the top. */
  lemma ReachesTopInMap(g: map<MenuId, Node>, k: MenuId)
    ensures ReachesTop(g, k) ==> k in g
  {
    if ReachesTop(g, k) {
      var q :| IsRootPath(g, q) && q[|q| - 1] == k;
      assert q[|q| - 1] in g;
    }
  }

  /**
   * The objects reachable from `cs`, serialised: each object of `cs`, whose
   * root path is `path` extended by it, with the objects of its `children`.
   */
  function Unfold(g: map<MenuId, Node>, cs: seq<MenuId>, path: seq<MenuId>): seq<MenuTree>
    requires Linked(g)
    requires forall c :: c in cs ==> IsRootPath(g, path + [c])
    decreases |g| - |path|, |cs|
  {
    if cs == [] then []
    else
      var c := cs[0];
      RootPathFits(g, path + [c]);
      RootPathChildren(g, path + [c]);
      [MenuTree(g[c].menu, Unfold(g, g[c].children, path + [c]))] + Unfold(g, cs[1..], path)
  }

  // ---------------------------------------------------------------- what the serialised objects contain

  /** `j` is serialised below the object at the end of `path`: its own root path starts with `path`. */
  ghost predicate Under(g: map<MenuId, Node>, path: seq<MenuId>, j: MenuId)
  {
    exists q :: IsRootPath(g, q) && q[|q| - 1] == j && |path| <= |q| && q[..|path|] == path
  }

  /** What lies below a child lies below its parent. */
  lemma UnderChild(g: map<MenuId, Node>, path: seq<MenuId>, c: MenuId, j: MenuId)
    requires Under(g, path + [c], j)
    ensures Under(g, path, j)
  {
    var q :| IsRootPath(g, q) && q[|q| - 1] == j && |path + [c]| <= |q| && q[..|path + [c]|] == path + [c];
    assert q[..|path|] == (path + [c])[..|path|];
  }

  /** The object at the end of a root path lies below it, and below none of its children. */
  lemma UnderSelf(g: map<MenuId, Node>, path: seq<MenuId>, c: MenuId)
    requires IsRootPath(g, path)
    ensures Under(g, path, path[|path| - 1])
    ensures !Under(g, path + [c], path[|path| - 1])
  {
    assert path[..|path|] == path;
    if Under(g, path + [c], path[|path| - 1]) {
      var q :| IsRootPath(g, q) && q[|q| - 1] == path[|path| - 1] && |path + [c]| <= |q| && q[..|path + [c]|] == path + [c];
      RootPathUnique(g, path, q);
    }
  }

  /** Anything else below an object lies below one of its children. */
  lemma UnderDescends(g: map<MenuId, Node>, path: seq<MenuId>, j: MenuId)
    requires Linked(g) && IsRootPath(g, path)
    requires Under(g, path, j) && j != path[|path| - 1]
    ensures exists c :: c in g[path[|path| - 1]].children && Under(g, path + [c], j)
  {
    var k := path[|path| - 1];
    var q :| IsRootPath(g, q) && q[|q| - 1] == j && |path| <= |q| && q[..|path|] == path;
    var c := q[|path|];
    assert q[|path| - 1] == k;
    assert Parent(g, c) == Some(k);
    assert q[..|path| + 1] == path + [c];
    assert c in g[k].children && Under(g, path + [c], j);
  }

  /** Below an object are the object itself and, apart from it, what lies below its children. */
  lemma UnderSplit(g: map<MenuId, Node>, path: seq<MenuId>, j: MenuId)
    requires Linked(g) && IsRootPath(g, path)
    ensures Under(g, path, j) <==>
      (j == path[|path| - 1] || exists c :: c in g[path[|path| - 1]].children && Under(g, path + [c], j))
    ensures j == path[|path| - 1] ==> forall c :: c in g[path[|path| - 1]].children ==> !Under(g, path + [c], j)
  {
    var k := path[|path| - 1];
    forall c | c in g[k].children && Under(g, path + [c], j) ensures Under(g, path, j) {
      UnderChild(g, path, c, j);
    }
    if j == k {
      forall c | c in g[k].children ensures !Under(g, path + [c], j) {
        UnderSelf(g, path, c);
      }
      UnderSelf(g, path, j);
    } else if Under(g, path, j) {
      UnderDescends(g, path, j);
    }
  }

  /** Nothing lies below two different children of the same object. */
  lemma UnderDisjoint(g: map<MenuId, Node>, path: seq<MenuId>, c1: MenuId, c2: MenuId, j: MenuId)
    requires Under(g, path + [c1], j) && Under(g, path + [c2], j)
    ensures c1 == c2
  {
    var q1 :| IsRootPath(g, q1) && q1[|q1| - 1] == j && |path + [c1]| <= |q1| && q1[..|path + [c1]|] == path + [c1];
    var q2 :| IsRootPath(g, q2) && q2[|q2| - 1] == j && |path + [c2]| <= |q2| && q2[..|path + [c2]|] == path + [c2];
    RootPathUnique(g, q1, q2);
    assert q1[|path|] == (path + [c1])[|path|];
    assert q2[|path|] == (path + [c2])[|path|];
  }

  /** `j` lies below one of the objects of `cs`, each following `path`. */
  ghost predicate UnderSome(g: map<MenuId, Node>, cs: seq<MenuId>, path: seq<MenuId>, j: MenuId)
  {
    exists c :: c in cs && Under(g, path + [c], j)
  }

  /** The objects below a level are those below its first object and those below the others, never both. */
  lemma UnderSomeCons(g: map<MenuId, Node>, cs: seq<MenuId>, path: seq<MenuId>, j: MenuId)
    requires cs != [] && Distinct(cs)
    ensures Distinct(cs[1..])
    ensures UnderSome(g, cs, path, j) <==> Under(g, path + [cs[0]], j) || UnderSome(g, cs[1..], path, j)
    ensures !(Under(g, path + [cs[0]], j) && UnderSome(g, cs[1..], path, j))
  {
    assert cs == [cs[0]] + cs[1..];
    forall a, b | 0 <= a < b < |cs[1..]| ensures cs[1..][a] != cs[1..][b] {
      assert cs[1..][a] == cs[a + 1] && cs[1..][b] == cs[b + 1];
    }
    if Under(g, path + [cs[0]], j) && UnderSome(g, cs[1..], path, j) {
      var c :| c in cs[1..] && Under(g, path + [c], j);
      UnderDisjoint(g, path, cs[0], c, j);
    }
  }

  /** Below an object are the object itself and, apart from it, what lies below its children. */
  lemma UnderChildren(g: map<MenuId, Node>, path: seq<MenuId>, j: MenuId)
    requires Linked(g) && IsRootPath(g, path)
    ensures Under(g, path, j) <==> j == path[|path| - 1] || UnderSome(g, g[path[|path| - 1]].children, path, j)
    ensures !(j == path[|path| - 1] && UnderSome(g, g[path[|path| - 1]].children, path, j))
  {
    UnderSplit(g, path, j);
  }

  /** One level of the serialisation: the first object, what lies below it, then the rest of the level. */
  lemma UnfoldCons(g: map<MenuId, Node>, cs: seq<MenuId>, path: seq<MenuId>)
    requires Linked(g) && cs != []
    requires forall c :: c in cs ==> IsRootPath(g, path + [c])
    ensures IsRootPath(g, path + [cs[0]]) && cs[0] in g
    ensures forall c :: c in g[cs[0]].children ==> IsRootPath(g, path + [cs[0]] + [c])
    ensures forall c :: c in cs[1..] ==> IsRootPath(g, path + [c])
    ensures Ids(Unfold(g, cs, path))
         == multiset{cs[0]} + Ids(Unfold(g, g[cs[0]].children, path + [cs[0]])) + Ids(Unfold(g, cs[1..], path))
  {
    var c := cs[0];
    assert c in cs;
    RootPathFits(g, path + [c]);
    RootPathChildren(g, path + [c]);
    var t := MenuTree(g[c].menu, Unfold(g, g[c].children, path + [c]));
    assert Unfold(g, cs, path) == [t] + Unfold(g, cs[1..], path);
    CensusConcat([t], Unfold(g, cs[1..], path), IdOf);
    CensusSingle(t, IdOf);
  }

  /** Serialising distinct objects gives each id the number of them it lies below: one or none. */
  lemma {:induction false} UnfoldCount(g: map<MenuId, Node>, cs: seq<MenuId>, path: seq<MenuId>, j: MenuId)
    requires Linked(g) && Distinct(cs)
    requires forall c :: c in cs ==> IsRootPath(g, path + [c])
    ensures Ids(Unfold(g, cs, path))[j] == if UnderSome(g, cs, path, j) then 1 else 0
    decreases |g| - |path|, |cs|
  {
    if cs != [] {
      var c := cs[0];
      var p := path + [c];
      UnfoldCons(g, cs, path);
      RootPathFits(g, p);
      UnderSomeCons(g, cs, path, j);
      UnderChildren(g, p, j);
      assert p[|p| - 1] == c;
      UnfoldCount(g, g[c].children, p, j);
      UnfoldCount(g, cs[1..], path, j);
    }
  }

  /** The top level of the serialisation holds the objects of `cs`, in order. */
  lemma {:induction false} UnfoldLevel(g: map<MenuId, Node>, cs: seq<MenuId>, path: seq<MenuId>)
    requires Linked(g)
    requires forall c :: c in cs ==> IsRootPath(g, path + [c])
    ensures LevelIds(Unfold(g, cs, path)) == multiset(cs)
    decreases |cs|
  {
    if cs != [] {
      var c := cs[0];
      assert c in cs;
      RootPathChildren(g, path + [c]);
      var us := Unfold(g, cs, path);
      assert us[0].menu == g[c].menu && us[1..] == Unfold(g, cs[1..], path);
      assert cs == [c] + cs[1..];
      UnfoldLevel(g, cs[1..], path);
    }
  }

  /** Every serialised object carries its own menu and the ids of its own children. */
  lemma {:induction false} UnfoldNodes(g: map<MenuId, Node>, cs: seq<MenuId>, path: seq<MenuId>)
    requires Linked(g)
    requires forall c :: c in cs ==> IsRootPath(g, path + [c])
    ensures forall x :: x in Nodes(Unfold(g, cs, path)) ==>
      x.0.id in g && x.0 == g[x.0.id].menu && x.1 == multiset(g[x.0.id].children)
    decreases |g| - |path|, |cs|
  {
    if cs != [] {
      var c := cs[0];
      var p := path + [c];
      UnfoldCons(g, cs, path);
      RootPathFits(g, p);
      var sub := Unfold(g, g[c].children, p);
      var t := MenuTree(g[c].menu, sub);
      assert Unfold(g, cs, path) == [t] + Unfold(g, cs[1..], path);
      CensusConcat([t], Unfold(g, cs[1..], path), NodeOf);
      CensusSingle(t, NodeOf);
      UnfoldLevel(g, g[c].children, p);
      UnfoldNodes(g, g[c].children, p);
      UnfoldNodes(g, cs[1..], path);
    }
  }

  /** Menus whose recorded parents agree have the same root paths. */
  lemma SameParentsSamePaths(g: map<MenuId, Node>, h: map<MenuId, Node>)
    requires g.Keys == h.Keys
    requires forall k :: k in g ==> Parent(g, k) == Parent(h, k)
    ensures forall q :: IsRootPath(g, q) <==> IsRootPath(h, q)
    ensures forall j :: ReachesTop(g, j) <==> ReachesTop(h, j)
  {
    forall q ensures IsRootPath(g, q) <==> IsRootPath(h, q) {
      if |q| > 0 && forall i :: 0 <= i < |q| ==> q[i] in g {
        assert Parent(g, q[0]) == Parent(h, q[0]);
        assert forall i :: 0 < i < |q| ==> Parent(g, q[i]) == Parent(h, q[i]);
      }
    }
  }

  // ---------------------------------------------------------------- what the handler promises

  /** A menu of the response with the ids of its children is the last active row with its id, with the menus naming it as parent. */
  ghost predicate FaithfulNode(rms: seq<RoleMenu>, g: map<MenuId, Node>, x: (Menu, multiset<MenuId>))
  {
    && x.0.id in g
    && (exists i :: LastAdmitted(rms, i, x.0.id) && x.0 == rms[i].menu.value)
    && forall c :: x.1[c] == if c in g && Parent(g, c) == Some(x.0.id) then 1 else 0
  }

  /**
   * `data` is the menu tree of the role's rows `rms`, up to the order of
   * each level.  With `g` the map of active menus:
   * - a menu appears exactly once if following `parentId` through `g` leads
   *   to a menu without a parent in `g`, and nowhere otherwise (a menu on a
   *   `parentId` cycle is dropped);
   * - the top level holds exactly the menus without a parent in `g`;
   * - each menu is the last active row with its id, and its children are
   *   exactly the menus whose `parentId` names it.
   */
  ghost predicate MenuTreeOf(rms: seq<RoleMenu>, data: seq<MenuTree>)
  {
    var g := Collect(rms).1;
    && (forall j :: Ids(data)[j] == if ReachesTop(g, j) then 1 else 0)
    && (forall r :: LevelIds(data)[r] == if r in g && Parent(g, r) == None then 1 else 0)
    && (forall x :: x in Nodes(data) ==> FaithfulNode(rms, g, x))
  }

  /** The tree is described by its census alone, so reordering levels keeps it. */
  lemma SameCensusSameTree(rms: seq<RoleMenu>, a: seq<MenuTree>, b: seq<MenuTree>)
    requires MenuTreeOf(rms, a)
    requires Ids(b) == Ids(a) && LevelIds(b) == LevelIds(a) && Nodes(b) == Nodes(a)
    ensures MenuTreeOf(rms, b)
  {
  }

  /**
   * When no menu is its own ancestor, the tree holds every active menu
   * granted to the role exactly once.
   */
  lemma AcyclicTreeHoldsEveryMenu(rms: seq<RoleMenu>, data: seq<MenuTree>)
    requires MenuTreeOf(rms, data)
    requires NoCycle(Collect(rms).1)
    ensures forall k :: Ids(data)[k] == (if exists i :: 0 <= i < |rms| && Admitted(rms[i]) && rms[i].menu.value.id == k then 1 else 0)
  {
    var g := Collect(rms).1;
    CollectAdmits(rms);
    forall k ensures Ids(data)[k] == if k in g then 1 else 0 {
      ReachesTopInMap(g, k);
      if k in g {
        AcyclicReachesTop(g, k);
      }
    }
  }

  /** The state after the two `forEach` loops. */
  ghost predicate Built(rms: seq<RoleMenu>, keys: seq<MenuId>, menuMap: map<MenuId, Node>,
                        linked: map<MenuId, Node>, roots: seq<MenuId>)
  {
    && (keys, menuMap) == Collect(rms)
    && (forall k :: k in keys ==> k in menuMap)
    && LinkedUpTo(linked, menuMap, keys)
    && roots == RootsOf(keys, menuMap)
  }

  /** What the serialisation needs of the state after the loops. */
  ghost predicate Shaped(menuMap: map<MenuId, Node>, linked: map<MenuId, Node>, roots: seq<MenuId>)
  {
    && Linked(linked) && linked.Keys == menuMap.Keys
    && (forall k :: k in linked ==> linked[k].menu == menuMap[k].menu && Parent(linked, k) == Parent(menuMap, k))
    && Distinct(roots)
    && (forall r :: r in roots <==> r in menuMap && Parent(menuMap, r) == None)
  }

  lemma BuiltShaped(rms: seq<RoleMenu>, keys: seq<MenuId>, menuMap: map<MenuId, Node>,
                    linked: map<MenuId, Node>, roots: seq<MenuId>)
    requires Built(rms, keys, menuMap, linked, roots)
    ensures Shaped(menuMap, linked, roots)
  {
    LinkingLinks(keys, menuMap, linked);
    RootsOfSpec(keys, menuMap);
  }

  lemma ShapedRoots(menuMap: map<MenuId, Node>, linked: map<MenuId, Node>, roots: seq<MenuId>)
    requires Shaped(menuMap, linked, roots)
    ensures forall r :: r in roots ==> IsRootPath(linked, [] + [r])
  {
    forall r | r in roots ensures IsRootPath(linked, [] + [r]) {
      assert [] + [r] == [r];
    }
  }

  /** Below some object without a parent is exactly what reaches the top. */
  lemma UnderSomeTop(g: map<MenuId, Node>, roots: seq<MenuId>, j: MenuId)
    requires forall r :: r in roots <==> r in g && Parent(g, r) == None
    ensures UnderSome(g, roots, [], j) <==> ReachesTop(g, j)
  {
    if ReachesTop(g, j) {
      var q :| IsRootPath(g, q) && q[|q| - 1] == j;
      assert q[0] in roots;
      assert q[..|[] + [q[0]]|] == [] + [q[0]];
      assert Under(g, [] + [q[0]], j);
    }
    if UnderSome(g, roots, [], j) {
      var c :| c in roots && Under(g, [] + [c], j);
    }
  }

  /** The top-level objects are the linked objects without a parent. */
  lemma ShapedTops(menuMap: map<MenuId, Node>, linked: map<MenuId, Node>, roots: seq<MenuId>)
    requires Shaped(menuMap, linked, roots)
    ensures forall r :: r in roots <==> r in linked && Parent(linked, r) == None
  {
  }

  /** Each menu whose parents lead to the top is serialised once, every other menu never. */
  lemma ForestIds(menuMap: map<MenuId, Node>, linked: map<MenuId, Node>, roots: seq<MenuId>, j: MenuId)
    requires Shaped(menuMap, linked, roots)
    ensures Linked(linked) && forall r :: r in roots ==> IsRootPath(linked, [] + [r])
    ensures Ids(Unfold(linked, roots, []))[j] == if ReachesTop(menuMap, j) then 1 else 0
  {
    ShapedRoots(menuMap, linked, roots);
    ShapedTops(menuMap, linked, roots);
    UnfoldCount(linked, roots, [], j);
    UnderSomeTop(linked, roots, j);
    SameParentsSamePaths(linked, menuMap);
  }

  /** The top level holds each menu without a parent once. */
  lemma ForestLevel(menuMap: map<MenuId, Node>, linked: map<MenuId, Node>, roots: seq<MenuId>, r: MenuId)
    requires Shaped(menuMap, linked, roots)
    ensures Linked(linked) && forall r :: r in roots ==> IsRootPath(linked, [] + [r])
    ensures LevelIds(Unfold(linked, roots, []))[r] == if r in menuMap && Parent(menuMap, r) == None then 1 else 0
  {
    ShapedRoots(menuMap, linked, roots);
    UnfoldLevel(linked, roots, []);
    DistinctMultiset(roots, r);
  }

  /** An object's children hold each menu naming it as parent once, and nothing else. */
  lemma ChildCount(menuMap: map<MenuId, Node>, linked: map<MenuId, Node>, roots: seq<MenuId>, p: MenuId, c: MenuId)
    requires Shaped(menuMap, linked, roots) && p in linked
    ensures multiset(linked[p].children)[c] == if c in menuMap && Parent(menuMap, c) == Some(p) then 1 else 0
  {
    DistinctMultiset(linked[p].children, c);
    if c in menuMap && Parent(menuMap, c) == Some(p) {
      assert Parent(linked, c) == Some(p);
    }
  }

  lemma LastRowOf(rms: seq<RoleMenu>, k: MenuId)
    requires k in Collect(rms).1
    ensures exists i :: LastAdmitted(rms, i, k) && Collect(rms).1[k].menu == rms[i].menu.value
  {
    CollectKeepsLastAdmitted(rms);
  }

  /** Each serialised menu is the last active row with its id and has the children that name it. */
  lemma ForestNodes(rms: seq<RoleMenu>, menuMap: map<MenuId, Node>, linked: map<MenuId, Node>, roots: seq<MenuId>)
    requires menuMap == Collect(rms).1
    requires Shaped(menuMap, linked, roots)
    ensures Linked(linked) && forall r :: r in roots ==> IsRootPath(linked, [] + [r])
    ensures forall x :: x in Nodes(Unfold(linked, roots, [])) ==> FaithfulNode(rms, menuMap, x)
  {
    ShapedRoots(menuMap, linked, roots);
    UnfoldNodes(linked, roots, []);
    forall x | x in Nodes(Unfold(linked, roots, [])) ensures FaithfulNode(rms, menuMap, x) {
      var id := x.0.id;
      LastRowOf(rms, id);
      forall c ensures x.1[c] == if c in menuMap && Parent(menuMap, c) == Some(id) then 1 else 0 {
        ChildCount(menuMap, linked, roots, id, c);
      }
    }
  }

  /** The serialised objects, before sorting, are the menu tree of the rows. */
  lemma ForestIsMenuTree(rms: seq<RoleMenu>, keys: seq<MenuId>, menuMap: map<MenuId, Node>,
                         linked: map<MenuId, Node>, roots: seq<MenuId>)
    requires Built(rms, keys, menuMap, linked, roots)
    ensures Linked(linked) && forall r :: r in roots ==> IsRootPath(linked, [] + [r])
    ensures MenuTreeOf(rms, Unfold(linked, roots, []))
  {
    BuiltShaped(rms, keys, menuMap, linked, roots);
    ShapedRoots(menuMap, linked, roots);
    var data := Unfold(linked, roots, []);
    forall j ensures Ids(data)[j] == if ReachesTop(menuMap, j) then 1 else 0 {
      ForestIds(menuMap, linked, roots, j);
    }
    forall r ensures LevelIds(data)[r] == if r in menuMap && Parent(menuMap, r) == None then 1 else 0 {
      ForestLevel(menuMap, linked, roots, r);
    }
    ForestNodes(rms, menuMap, linked, roots);
  }

  // ---------------------------------------------------------------- the handler

  datatype MenusResponse =
    | Unauthorized                  // 401, "Utente non autenticato"
    | RoleNotFound                  // 404, "Ruolo utente non trovato"
    | MenuData(data: seq<MenuTree>) // 200, `success: true`

  /** `userWithMenus.role.roleMenus || []`: the rows granting menus to a role. */
  function RoleMenusOf(grants: map<RoleId, seq<RoleMenu>>, roleId: RoleId): seq<RoleMenu>
  {
    if roleId in grants then grants[roleId] else []
  }

  /**
   * `GET /api/menus`: the menus granted to the caller's role, as a forest
   * sorted at every level by `order`.
   */
  method GetMenus(dir: Directory, grants: map<RoleId, seq<RoleMenu>>, session: Option<UserId>)
    returns (r: MenusResponse)
    ensures r.Unauthorized? <==> !Authenticated(session)
    ensures r.RoleNotFound? <==> Authenticated(session) && RoleOf(dir, session.value).None?
    ensures r.MenuData? ==> Authenticated(session) && RoleOf(dir, session.value).Some?
    ensures r.MenuData? ==>
      && AllSorted(r.data)
      && MenuTreeOf(RoleMenusOf(grants, RoleOf(dir, session.value).value), r.data)
  {
    if !Authenticated(session) {
      return Unauthorized;
    }
    var role := RoleOf(dir, session.value);
    if role.None? {
      return RoleNotFound;
    }
    var roleMenus := RoleMenusOf(grants, role.value);
    var keys, menuMap := CollectActiveMenus(roleMenus);
    var linked, roots := LinkMenus(keys, menuMap);
    ForestIsMenuTree(roleMenus, keys, menuMap, linked, roots);
    var rootMenus := Unfold(linked, roots, []);
    var sorted := SortMenus(rootMenus);
    SameCensusSameTree(roleMenus, rootMenus, sorted);
    r := MenuData(sorted);
  }
}
