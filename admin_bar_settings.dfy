/**
 * The `AdminBarSettings` class: the relabelling table, the depth comparator
 * and sort of `storeOriginalAdminBar`, the cached structure, and the prune
 * walk that removes nodes from the live toolbar.
 */
module AdminBarSettings {
  import opened PhpArray
  import opened AdminBarTree
  import opened AdminBarSearch

  // ----- relabelling -----

  /** The table `setTitleMap` installs, with `__` passed in as `translate`. */
  function TitleTable(translate: string -> string): map<string, string> {
    map["updates" := translate("Updates"),
        "comments" := translate("Comments"),
        "my-account" := translate("My account"),
        "litespeed-menu" := translate("Litespeed Menu")]
  }

  /** The four relabelled ids get their translated label; any other id, or an empty table, keeps its title. */
  lemma MappedTitleTable(translate: string -> string, nodeId: string, original: string)
    ensures nodeId == "updates" ==> MappedTitle(TitleTable(translate), nodeId, original) == translate("Updates")
    ensures nodeId == "comments" ==> MappedTitle(TitleTable(translate), nodeId, original) == translate("Comments")
    ensures nodeId == "my-account" ==> MappedTitle(TitleTable(translate), nodeId, original) == translate("My account")
    ensures nodeId == "litespeed-menu" ==>
              MappedTitle(TitleTable(translate), nodeId, original) == translate("Litespeed Menu")
    ensures nodeId !in {"updates", "comments", "my-account", "litespeed-menu"} ==>
              MappedTitle(TitleTable(translate), nodeId, original) == original
    ensures MappedTitle(map[], nodeId, original) == original
  {
  }

  // ----- the comparator and the sort of storeOriginalAdminBar -----

  /** PHP truthiness of a `parent` value: `false`, `""` and `"0"` are falsy. */
  predicate Truthy(p: Parent) {
    p.Under? && !PhpEmpty(p.id)
  }

  /** The depth the comparator computes: its lookups in the unbound `$nodes` always fail. */
  function DepthKey(n: ToolbarNode): nat {
    if Truthy(n.parent) then 1 else 0
  }

  /**
   * One of the comparator's `while ($parent)` loops. The closure does not
   * capture `$nodes`, so inside it `$nodes` is an empty scope and the first
   * lookup yields `null`.
   */
  method ComparatorDepth(node: ToolbarNode) returns (depth: nat)
    ensures depth == DepthKey(node)
    ensures depth <= 1
  {
    var scope: map<string, ToolbarNode> := map[];
    depth := 0;
    var parent: Option<Parent> := Some(node.parent);
    while parent.Some? && Truthy(parent.value)
      invariant depth <= 1
      invariant depth == 0 ==> parent == Some(node.parent)
      invariant depth == 1 ==> parent == None && Truthy(node.parent)
      decreases 1 - depth
    {
      depth := depth + 1;
      parent := ParentIn(scope, parent.value.id);
    }
  }

  /** `isset($nodes[$key]) ? $nodes[$key]->parent : null` */
  function ParentIn(scope: map<string, ToolbarNode>, key: string): (p: Option<Parent>)
    ensures p.Some? <==> key in scope
  {
    if key in scope then Some(scope[key].parent) else None
  }

  /** The `uasort` comparator: `$aDepth <=> $bDepth`. */
  method Compare(a: ToolbarNode, b: ToolbarNode) returns (c: int)
    ensures c < 0 <==> !Truthy(a.parent) && Truthy(b.parent)
    ensures c > 0 <==> Truthy(a.parent) && !Truthy(b.parent)
    ensures -1 <= c <= 1
  {
    var aDepth := ComparatorDepth(a);
    var bDepth := ComparatorDepth(b);
    c := if aDepth < bDepth then -1 else if aDepth == bDepth then 0 else 1;
  }

  /** The nodes of comparator depth `d`, in their original order. */
  function KeyFilter(s: seq<ToolbarNode>, d: nat): (r: seq<ToolbarNode>)
    ensures forall i :: 0 <= i < |r| ==> DepthKey(r[i]) == d
    ensures |r| <= |s|
  {
    if |s| == 0 then []
    else KeyFilter(s[..|s| - 1], d) + (if DepthKey(s[|s| - 1]) == d then [s[|s| - 1]] else [])
  }

  predicate SortedByDepth(s: seq<ToolbarNode>) {
    forall i, j :: 0 <= i < j < |s| ==> DepthKey(s[i]) <= DepthKey(s[j])
  }

  /**
   * `uasort($nodes, $comparator)`. PHP's sort is stable, so the result is
   * the nodes of depth 0 followed by the nodes of depth 1, each group in
   * its original order; `StableSortIsUnique` shows no other order is a
   * stable sort by this comparator.
   */
  function UaSort(nodes: seq<ToolbarNode>): (sorted: seq<ToolbarNode>)
    ensures SortedByDepth(sorted)
    ensures KeyFilter(sorted, 0) == KeyFilter(nodes, 0) && KeyFilter(sorted, 1) == KeyFilter(nodes, 1)
    ensures multiset(sorted) == multiset(nodes)
    ensures UniqueIds(nodes) ==> UniqueIds(sorted)
  {
    GroupedFacts(nodes);
    KeyFilter(nodes, 0) + KeyFilter(nodes, 1)
  }

  /** The depth-0 group followed by the depth-1 group is a stable sort by depth. */
  lemma GroupedFacts(nodes: seq<ToolbarNode>)
    ensures SortedByDepth(KeyFilter(nodes, 0) + KeyFilter(nodes, 1))
    ensures KeyFilter(KeyFilter(nodes, 0) + KeyFilter(nodes, 1), 0) == KeyFilter(nodes, 0)
    ensures KeyFilter(KeyFilter(nodes, 0) + KeyFilter(nodes, 1), 1) == KeyFilter(nodes, 1)
    ensures multiset(KeyFilter(nodes, 0) + KeyFilter(nodes, 1)) == multiset(nodes)
    ensures UniqueIds(nodes) ==> UniqueIds(KeyFilter(nodes, 0) + KeyFilter(nodes, 1))
  {
    var zeros := KeyFilter(nodes, 0);
    var ones := KeyFilter(nodes, 1);
    FilterConcat(zeros, ones, 0);
    FilterConcat(zeros, ones, 1);
    FilterUniform(zeros, 0, 0);
    FilterUniform(zeros, 0, 1);
    FilterUniform(ones, 1, 0);
    FilterUniform(ones, 1, 1);
    FilterSplit(nodes);
    SplitKeepsUnique(nodes);
    GroupsSorted(zeros, ones);
  }

  lemma GroupsSorted(zeros: seq<ToolbarNode>, ones: seq<ToolbarNode>)
    requires forall i :: 0 <= i < |zeros| ==> DepthKey(zeros[i]) == 0
    requires forall i :: 0 <= i < |ones| ==> DepthKey(ones[i]) == 1
    ensures SortedByDepth(zeros + ones)
  {
    var g := zeros + ones;
    forall i, j | 0 <= i < j < |g| ensures DepthKey(g[i]) <= DepthKey(g[j]) {
      if i < |zeros| {
        assert g[i] == zeros[i];
      } else {
        assert g[i] == ones[i - |zeros|] && g[j] == ones[j - |zeros|];
      }
    }
  }

  lemma {:induction false} FilterConcat(a: seq<ToolbarNode>, b: seq<ToolbarNode>, d: nat)
    ensures KeyFilter(a + b, d) == KeyFilter(a, d) + KeyFilter(b, d)
    decreases |b|
  {
    if |b| > 0 {
      var n := |b| - 1;
      assert (a + b)[..|a + b| - 1] == a + b[..n];
      assert (a + b)[|a + b| - 1] == b[n];
      FilterConcat(a, b[..n], d);
      AppendAssoc(KeyFilter(a, d), KeyFilter(b[..n], d), if DepthKey(b[n]) == d then [b[n]] else []);
    } else {
      assert a + b == a;
    }
  }

  /** Filtering a group of one depth by that depth keeps it; by any other depth empties it. */
  lemma {:induction false} FilterUniform(s: seq<ToolbarNode>, d: nat, e: nat)
    requires forall i :: 0 <= i < |s| ==> DepthKey(s[i]) == d
    ensures KeyFilter(s, e) == if e == d then s else []
  {
    if |s| > 0 {
      var n := |s| - 1;
      var p := s[..n];
      assert forall i :: 0 <= i < |p| ==> p[i] == s[i];
      FilterUniform(p, d, e);
      assert p + [s[n]] == s;
    }
  }

  lemma {:induction false} FilterSplit(s: seq<ToolbarNode>)
    ensures multiset(KeyFilter(s, 0)) + multiset(KeyFilter(s, 1)) == multiset(s)
  {
    if |s| > 0 {
      var n := |s| - 1;
      FilterSplit(s[..n]);
      assert s[..n] + [s[n]] == s;
    }
  }

  /** The ids of a filtered list are ids of the list. */
  lemma {:induction false} FilterIds(s: seq<ToolbarNode>, d: nat)
    ensures NodeIds(KeyFilter(s, d)) <= NodeIds(s)
  {
    if |s| > 0 {
      var n := |s| - 1;
      var p := s[..n];
      FilterIds(p, d);
      var r := KeyFilter(s, d);
      forall k | k in NodeIds(r) ensures k in NodeIds(s) {
        var i :| 0 <= i < |r| && r[i].id == k;
        if i < |KeyFilter(p, d)| {
          assert KeyFilter(p, d)[i].id in NodeIds(KeyFilter(p, d));
          var m :| 0 <= m < |p| && p[m].id == k;
          assert s[m].id == k;
        } else {
          assert s[n].id == k;
        }
      }
    }
  }

  /** A node whose id is new can go anywhere in a list with unique ids. */
  lemma InsertKeepsUnique(a: seq<ToolbarNode>, c: ToolbarNode, b: seq<ToolbarNode>)
    requires UniqueIds(a + b) && c.id !in NodeIds(a + b)
    ensures UniqueIds(a + [c] + b)
  {
    var t := a + [c] + b;
    forall i, j | 0 <= i < j < |t| ensures t[i].id != t[j].id {
      if i == |a| {
        assert t[j] == (a + b)[j - 1];
        assert (a + b)[j - 1].id in NodeIds(a + b);
      } else if j == |a| {
        assert t[i] == (a + b)[i];
        assert (a + b)[i].id in NodeIds(a + b);
      } else {
        var i' := if i < |a| then i else i - 1;
        var j' := if j < |a| then j else j - 1;
        assert t[i] == (a + b)[i'] && t[j] == (a + b)[j'];
      }
    }
  }

  /** Grouping by depth keeps ids unique. */
  lemma {:induction false} SplitKeepsUnique(s: seq<ToolbarNode>)
    ensures UniqueIds(s) ==> UniqueIds(KeyFilter(s, 0) + KeyFilter(s, 1))
  {
    if |s| > 0 && UniqueIds(s) {
      var n := |s| - 1;
      var p := s[..n];
      assert UniqueIds(p);
      SplitKeepsUnique(p);
      var z := KeyFilter(p, 0);
      var o := KeyFilter(p, 1);
      FilterIds(p, 0);
      FilterIds(p, 1);
      assert s[n].id !in NodeIds(z + o) by {
        assert NodeIds(z + o) <= NodeIds(p) by {
          forall k | k in NodeIds(z + o) ensures k in NodeIds(p) {
            var i :| 0 <= i < |z + o| && (z + o)[i].id == k;
            if i < |z| { assert z[i].id in NodeIds(z); } else { assert o[i - |z|].id in NodeIds(o); }
          }
        }
        forall k | k in NodeIds(p) ensures k != s[n].id {
          var m :| 0 <= m < |p| && p[m].id == k;
          assert s[m].id == k;
        }
      }
      if DepthKey(s[n]) == 0 {
        InsertKeepsUnique(z, s[n], o);
        assert KeyFilter(s, 0) + KeyFilter(s, 1) == z + [s[n]] + o;
      } else {
        InsertKeepsUnique(z + o, s[n], []);
        assert KeyFilter(s, 0) + KeyFilter(s, 1) == z + o + [s[n]] + [];
      }
    }
  }

  /** A sequence sorted by depth is its depth-0 nodes followed by its depth-1 nodes. */
  lemma {:induction false} SortedIsSplit(t: seq<ToolbarNode>)
    requires SortedByDepth(t)
    ensures t == KeyFilter(t, 0) + KeyFilter(t, 1)
  {
    if |t| > 0 {
      var n := |t| - 1;
      var p := t[..n];
      assert t == p + [t[n]];
      assert SortedByDepth(p);
      SortedIsSplit(p);
      if DepthKey(t[n]) == 0 {
        assert forall i :: 0 <= i < |p| ==> DepthKey(p[i]) == 0 by {
          forall i | 0 <= i < |p| ensures DepthKey(p[i]) == 0 {
            assert DepthKey(t[i]) <= DepthKey(t[n]);
          }
        }
        FilterUniform(p, 0, 0);
        FilterUniform(p, 0, 1);
      } else {
        AppendAssoc(KeyFilter(p, 0), KeyFilter(p, 1), [t[n]]);
      }
    }
  }

  /** Any stable sort of the nodes by the comparator is `UaSort`'s result. */
  lemma StableSortIsUnique(nodes: seq<ToolbarNode>, t: seq<ToolbarNode>)
    requires SortedByDepth(t)
    requires KeyFilter(t, 0) == KeyFilter(nodes, 0) && KeyFilter(t, 1) == KeyFilter(nodes, 1)
    ensures t == UaSort(nodes)
  {
    SortedIsSplit(t);
  }

  /** Every node with a falsy parent comes before every node with a truthy parent. */
  lemma SortPutsTopLevelFirst(nodes: seq<ToolbarNode>, i: nat, j: nat)
    requires i < |UaSort(nodes)| && j < |UaSort(nodes)|
    requires !Truthy(UaSort(nodes)[i].parent) && Truthy(UaSort(nodes)[j].parent)
    ensures i < j
  {
    var t := UaSort(nodes);
    assert DepthKey(t[i]) == 0 && DepthKey(t[j]) == 1;
  }

  /**
   * The comparator does not put parents first below the top level: with
   * `c` under `b` under top-level `a`, listed child first, the sort keeps
   * `c` ahead of its parent `b`.
   */
  lemma SortMayPlaceChildFirst(a: ToolbarNode, b: ToolbarNode, c: ToolbarNode)
    requires a.parent == Root && b.parent == Under(a.id) && c.parent == Under(b.id)
    requires !PhpEmpty(a.id) && !PhpEmpty(b.id)
    ensures UaSort([c, b, a]) == [a, c, b]
    ensures UaSort([c, b, a])[1].parent == Under(UaSort([c, b, a])[2].id)
  {
    assert DepthKey(a) == 0 && DepthKey(b) == 1 && DepthKey(c) == 1;
    var s := [c, b, a];
    assert s[..2] == [c, b] && [c, b][..1] == [c] && [c][..0] == [];
    assert KeyFilter([c], 0) == [] && KeyFilter([c], 1) == [c];
    assert KeyFilter([c, b], 0) == [] && KeyFilter([c, b], 1) == [c, b];
    assert KeyFilter(s, 0) == [a] && KeyFilter(s, 1) == [c, b];
    assert UaSort(s) == [a] + [c, b];
    OneThenTwo(a, c, b);
  }

  /** A literal sequence step, stated on its own to keep the solver cost of its callers low. */
  lemma OneThenTwo<T>(x: T, y: T, z: T)
    ensures [x] + [y, z] == [x, y, z]
  {
  }

  // ----- the live toolbar -----

  /** The nodes left after removing every node whose id is in `ids`. */
  function RemoveIds(nodes: seq<ToolbarNode>, ids: set<string>): (r: seq<ToolbarNode>)
    ensures forall x :: x in r <==> x in nodes && x.id !in ids
    ensures NodeIds(r) == NodeIds(nodes) - ids
  {
    if |nodes| == 0 then []
    else
      var n := |nodes| - 1;
      var rest := RemoveIds(nodes[..n], ids);
      assert forall x :: x in nodes <==> x in nodes[..n] || x == nodes[n] by {
        assert nodes == nodes[..n] + [nodes[n]];
      }
      var r := rest + (if nodes[n].id in ids then [] else [nodes[n]]);
      assert NodeIds(r) == NodeIds(nodes) - ids by {
        forall k | k in NodeIds(nodes) - ids ensures k in NodeIds(r) {
          var i :| 0 <= i < |nodes| && nodes[i].id == k;
          assert nodes[i] in r;
        }
        forall k | k in NodeIds(r) ensures k in NodeIds(nodes) - ids {
          var i :| 0 <= i < |r| && r[i].id == k;
          assert r[i] in nodes;
        }
      }
      r
  }

  lemma {:induction false} RemoveIdsTwice(nodes: seq<ToolbarNode>, x: set<string>, y: set<string>)
    ensures RemoveIds(RemoveIds(nodes, x), y) == RemoveIds(nodes, x + y)
  {
    if |nodes| > 0 {
      var n := |nodes| - 1;
      var p := nodes[..n];
      var z := nodes[n];
      RemoveIdsTwice(p, x, y);
      var r := RemoveIds(p, x);
      assert RemoveIds(nodes, x + y) == RemoveIds(p, x + y) + (if z.id in x + y then [] else [z]);
      if z.id in x {
        assert RemoveIds(nodes, x) == r + [];
        assert r + [] == r;
      } else {
        assert RemoveIds(nodes, x) == r + [z];
        assert (r + [z])[..|r|] == r && (r + [z])[|r|] == z;
        assert RemoveIds(r + [z], y) == RemoveIds(r, y) + (if z.id in y then [] else [z]);
      }
    }
  }

  lemma {:induction false} RemoveNothing(nodes: seq<ToolbarNode>)
    ensures RemoveIds(nodes, {}) == nodes
  {
    if |nodes| > 0 {
      RemoveNothing(nodes[..|nodes| - 1]);
      assert nodes[..|nodes| - 1] + [nodes[|nodes| - 1]] == nodes;
    }
  }

  lemma RemoveKeepsUnique(nodes: seq<ToolbarNode>, ids: set<string>)
    requires UniqueIds(nodes)
    ensures UniqueIds(RemoveIds(nodes, ids))
    decreases |nodes|
  {
    if |nodes| > 0 {
      var n := |nodes| - 1;
      assert UniqueIds(nodes[..n]);
      RemoveKeepsUnique(nodes[..n], ids);
      var rest := RemoveIds(nodes[..n], ids);
      forall x | x in rest ensures x.id != nodes[n].id {
        var i :| 0 <= i < n && nodes[..n][i] == x;
      }
    }
  }

  /** `$wp_admin_bar`: the host toolbar, keyed by node id. */
  class Toolbar {
    var nodes: seq<ToolbarNode>

    ghost predicate Valid()
      reads this
    {
      UniqueIds(nodes)
    }

    constructor (initial: seq<ToolbarNode>)
      requires UniqueIds(initial)
      ensures Valid() && nodes == initial
    {
      nodes := initial;
    }

    /** `remove_node($id)`: drops the node with that id, if there is one. */
    method RemoveNode(id: string)
      requires Valid()
      modifies this
      ensures Valid()
      ensures nodes == RemoveIds(old(nodes), {id})
    {
      RemoveKeepsUnique(nodes, {id});
      nodes := RemoveIds(nodes, {id});
    }
  }

  // ----- who is asking, and what they exclude -----

  /** `wp_get_current_user()`: its `ID` and `roles`. */
  datatype User = User(id: int, roles: seq<string>)

  /**
   * The exclusion map `hideAdminBarItems` applies: none without a user or
   * roles; the user's own map when non-empty; else the first role's.
   */
  function ToolbarExclusions(user: Option<User>, userMeta: Settings, options: map<string, Settings>): Settings {
    if user.None? || |user.value.roles| == 0 then []
    else if |userMeta| > 0 then userMeta
    else GetOption(options, "simpad_adminbar_settings_" + user.value.roles[0], [])
  }

  // ----- the class -----

  class AdminBarSettings {
    /** The cached structure; meaningful once `initialized`. */
    var originalAdminBar: seq<Entry>
    /** The typed property `$originalAdminBar` has no default: it is unset until stored. */
    var initialized: bool
    var titleMap: map<string, string>

    /** The cached structure has unique keys and consistent ids and parents. */
    ghost predicate Valid()
      reads this
    {
      Disjoint(originalAdminBar) && Shaped(originalAdminBar, Root) && (!initialized ==> originalAdminBar == [])
    }

    constructor ()
      ensures Valid() && !initialized && titleMap == map[]
    {
      originalAdminBar := [];
      initialized := false;
      titleMap := map[];
    }

    /** `setTitleMap`, with `__` passed in. */
    method SetTitleMap(translate: string -> string)
      modifies this
      ensures titleMap == TitleTable(translate)
      ensures originalAdminBar == old(originalAdminBar) && initialized == old(initialized)
    {
      titleMap := TitleTable(translate);
    }

    /** `storeOriginalAdminBar`, with `wp_strip_all_tags` passed in as `strip`. */
    method StoreOriginalAdminBar(bar: Toolbar?, strip: string -> string)
      requires Valid() && (bar != null ==> bar.Valid())
      modifies this
      ensures Valid() && titleMap == old(titleMap)
      ensures bar == null ==> originalAdminBar == old(originalAdminBar) && initialized == old(initialized)
      ensures bar != null ==> initialized && originalAdminBar == BuildTree(UaSort(bar.nodes), titleMap, strip)
    {
      if bar == null {
        return;
      }
      var nodes := bar.nodes;
      if |nodes| > 0 {
        var sorted := UaSort(nodes);
        originalAdminBar := BuildTree(sorted, titleMap, strip);
      } else {
        originalAdminBar := [];
      }
      initialized := true;
    }

    /** `getAdminBarItems`: absent while the property is unset (PHP raises an error). */
    function GetAdminBarItems(): (r: Option<seq<Entry>>)
      requires Valid()
      reads this
      ensures r.Some? <==> initialized
      ensures r.Some? ==> Disjoint(r.value) && Shaped(r.value, Root)
      ensures r.Some? ==> r.value == originalAdminBar
    {
      if initialized then Some(originalAdminBar) else None
    }

    /**
     * `hideNodeAndChildren($wp_admin_bar, $nodeId, $settings)`. Looking the
     * id up reads the cached structure, so it must have been stored.
     */
    method HideNodeAndChildren(bar: Toolbar, nodeId: string, settings: Settings)
      requires Valid() && bar.Valid() && initialized
      modifies bar
      ensures bar.Valid()
      ensures bar.nodes == RemoveIds(old(bar.nodes), PrunedFrom(originalAdminBar, nodeId, Keys(settings)))
      decreases FoundSize(originalAdminBar, nodeId)
    {
      if nodeId in Keys(settings) {
        bar.RemoveNode(nodeId);
        return;
      }
      var node := FindNodeInStructure(nodeId, originalAdminBar);
      ghost var orig := bar.nodes;
      RemoveNothing(orig);
      if node.Some? && |node.value.children| != 0 {
        var children := node.value.children;
        var j := 0;
        while j < |children|
          invariant 0 <= j <= |children|
          invariant bar.Valid()
          invariant bar.nodes == RemoveIds(orig, Pruned(children[..j], Keys(settings)))
        {
          FoundSizeChild(originalAdminBar, nodeId, node.value, j);
          OccursChild(originalAdminBar, nodeId, node.value, j);
          ghost var before := bar.nodes;
          HideNodeAndChildren(bar, children[j].key, settings);
          HideStep(originalAdminBar, children, j, Keys(settings), orig, before, bar.nodes);
          j := j + 1;
        }
        assert children[..|children|] == children;
      }
    }

    /**
     * `hideAdminBarItems`, with `get_user_meta` and `get_option` passed in
     * as the user's stored map and the option store. It removes exactly
     * the excluded cached nodes that have no excluded ancestor.
     */
    method HideAdminBarItems(bar: Toolbar?, user: Option<User>, userMeta: Settings, options: map<string, Settings>)
      requires Valid() && (bar != null ==> bar.Valid())
      requires bar != null && ToolbarExclusions(user, userMeta, options) != [] ==> initialized
      modifies bar
      ensures bar != null ==> bar.Valid()
      ensures bar != null ==>
                bar.nodes == RemoveIds(old(bar.nodes),
                                       Topmost(originalAdminBar, Keys(ToolbarExclusions(user, userMeta, options))))
    {
      if bar == null {
        return;
      }
      ghost var exclusions := ToolbarExclusions(user, userMeta, options);
      if user.None? || |user.value.roles| == 0 {
        assert exclusions == [] && Keys(exclusions) == {};
        NothingExcluded(originalAdminBar);
        RemoveNothing(bar.nodes);
        return;
      }
      var settings := userMeta;
      if |settings| == 0 {
        settings := GetOption(options, "simpad_adminbar_settings_" + user.value.roles[0], []);
      }
      assert settings == exclusions;
      if |settings| == 0 {
        assert Keys(settings) == {};
        NothingExcluded(originalAdminBar);
        RemoveNothing(bar.nodes);
        return;
      }
      HideTopLevel(bar, settings);
    }

    /** The `foreach ($this->originalAdminBar as $nodeId => $node)` loop of `hideAdminBarItems`. */
    method HideTopLevel(bar: Toolbar, settings: Settings)
      requires Valid() && bar.Valid() && initialized
      modifies bar
      ensures bar.Valid()
      ensures bar.nodes == RemoveIds(old(bar.nodes), Topmost(originalAdminBar, Keys(settings)))
    {
      ghost var orig := bar.nodes;
      RemoveNothing(orig);
      var tree := originalAdminBar;
      var j := 0;
      while j < |tree|
        invariant 0 <= j <= |tree|
        invariant bar.Valid()
        invariant bar.nodes == RemoveIds(orig, Pruned(tree[..j], Keys(settings)))
      {
        assert Occurs(tree, tree[j].key, tree[j].node);
        ghost var before := bar.nodes;
        HideNodeAndChildren(bar, tree[j].key, settings);
        HideStep(tree, tree, j, Keys(settings), orig, before, bar.nodes);
        j := j + 1;
      }
      assert tree[..|tree|] == tree;
      PrunedIsTopmost(tree, Keys(settings));
    }
  }

  /** One turn of either prune loop: the walk at the next sibling extends the removed set by that sibling's share. */
  lemma HideStep(tree: seq<Entry>, children: seq<Entry>, j: nat, excluded: set<string>,
                 orig: seq<ToolbarNode>, before: seq<ToolbarNode>, after: seq<ToolbarNode>)
    requires Disjoint(tree) && j < |children| && Occurs(tree, children[j].key, children[j].node)
    requires before == RemoveIds(orig, Pruned(children[..j], excluded))
    requires after == RemoveIds(before, PrunedFrom(tree, children[j].key, excluded))
    ensures after == RemoveIds(orig, Pruned(children[..j + 1], excluded))
  {
    PrunedFromEntry(tree, children[j], excluded);
    PrunedSnoc(children, j, excluded);
    RemoveIdsTwice(orig, Pruned(children[..j], excluded), PrunedFrom(tree, children[j].key, excluded));
  }

  /** With no exclusions nothing is topmost-excluded. */
  lemma NothingExcluded(tree: seq<Entry>)
    requires Disjoint(tree)
    ensures Topmost(tree, {}) == {}
  {
    PrunedIsTopmost(tree, {});
    PrunedExtremes(tree);
  }
}
