/**
 * Rebuilding the toolbar's flat node list into the nested structure the
 * plugin caches (`AdminBarSettings::buildNodeStructure`), with the shape of
 * the result proved outright:
 *  - at every level each key is its record's `id` and each record's `parent`
 *    is the id the level was built for;
 *  - no key is `menu-toggle`, a title-less node, or any node below
 *    `menu-toggle`;
 *  - every key at every depth occurs once in the whole tree;
 *  - every titled node hanging off the level's parent is a key of the level,
 *    and the keys a title-less node's children get are lifted into it.
 */
module AdminBarTree {
  import opened PhpArray

  /** The id of the toolbar's menu-toggle node, which is never placed. */
  const MenuToggle := "menu-toggle"

  /** A node's `parent` field: PHP `false` for a top-level node, else an id. */
  datatype Parent = Root | Under(id: string)

  /** One entry of the host toolbar's flat node list. */
  datatype ToolbarNode = ToolbarNode(id: string, title: string, parent: Parent)

  /** A record of the cached structure: `['id', 'title', 'parent', 'children']`. */
  datatype Record = Record(id: string, title: string, parent: Parent, children: seq<Entry>)

  /** One `$key => $record` pair of a level of the structure. */
  datatype Entry = Entry(key: string, node: Record)

  /** The node list from `get_nodes()` is keyed by id. */
  ghost predicate UniqueIds(nodes: seq<ToolbarNode>) {
    forall i, j :: 0 <= i < j < |nodes| ==> nodes[i].id != nodes[j].id
  }

  function NodeIds(nodes: seq<ToolbarNode>): set<string> {
    set i | 0 <= i < |nodes| :: nodes[i].id
  }

  /** `getMappedTitle`: the table's title for a known id, else the given one. */
  function MappedTitle(titleMap: map<string, string>, nodeId: string, originalTitle: string): string {
    if nodeId in titleMap then titleMap[nodeId] else originalTitle
  }

  // ----- ordered levels of the structure -----

  function LevelKeys(s: seq<Entry>): set<string> {
    set i | 0 <= i < |s| :: s[i].key
  }

  /** `$structure[$k] = $r`: replace in place, or append a new key. */
  function StructurePut(s: seq<Entry>, k: string, r: Record): (t: seq<Entry>)
    ensures LevelKeys(t) == LevelKeys(s) + {k}
    ensures k !in LevelKeys(s) ==> t == s + [Entry(k, r)]
  {
    if |s| == 0 then
      assert LevelKeys([Entry(k, r)]) == {k} by { assert [Entry(k, r)][0].key == k; }
      [Entry(k, r)]
    else
      assert s == [s[0]] + s[1..];
      LevelKeysCons(s[0], s[1..]);
      if s[0].key == k then
        LevelKeysCons(Entry(k, r), s[1..]);
        [Entry(k, r)] + s[1..]
      else
        var rest := StructurePut(s[1..], k, r);
        LevelKeysCons(s[0], rest);
        [s[0]] + rest
  }

  lemma LevelKeysCons(e: Entry, s: seq<Entry>)
    ensures LevelKeys([e] + s) == {e.key} + LevelKeys(s)
  {
    var b := [e] + s;
    forall y | y in LevelKeys(b) ensures y in {e.key} + LevelKeys(s) {
      var i :| 0 <= i < |b| && b[i].key == y;
      if i > 0 { assert s[i - 1].key == y; }
    }
    forall y | y in LevelKeys(s) ensures y in LevelKeys(b) {
      var i :| 0 <= i < |s| && s[i].key == y;
      assert b[i + 1].key == y;
    }
    assert b[0].key == e.key;
  }

  /**
   * The inner `foreach` of the title-less branch: each child gets
   * `parent := $parentId` and is stored under its own key.
   */
  function Splice(acc: seq<Entry>, children: seq<Entry>, parentId: Parent): (r: seq<Entry>)
    ensures LevelKeys(r) == LevelKeys(acc) + LevelKeys(children)
    decreases |children|
  {
    if |children| == 0 then acc
    else
      assert children == [children[0]] + children[1..];
      LevelKeysCons(children[0], children[1..]);
      Splice(StructurePut(acc, children[0].key, children[0].node.(parent := parentId)), children[1..], parentId)
  }

  /** The children of a title-less node as they land in the enclosing level. */
  function Reparented(children: seq<Entry>, parentId: Parent): (r: seq<Entry>)
    ensures |r| == |children|
    ensures forall j :: 0 <= j < |r| ==>
              r[j].key == children[j].key && r[j].node == children[j].node.(parent := parentId)
  {
    seq(|children|, j requires 0 <= j < |children| => Entry(children[j].key, children[j].node.(parent := parentId)))
  }

  // ----- walking up the parent pointers of the flat node list -----

  /** The first node with id `k` (ids are unique, so the only one). */
  ghost function NodeOf(nodes: seq<ToolbarNode>, k: string): Option<ToolbarNode> {
    if |nodes| == 0 then None
    else if nodes[0].id == k then Some(nodes[0])
    else NodeOf(nodes[1..], k)
  }

  ghost function ParentOf(nodes: seq<ToolbarNode>, k: string): Option<Parent> {
    match NodeOf(nodes, k)
    case None => None
    case Some(n) => Some(n.parent)
  }

  /**
   * What `n` steps up the parent pointers from node `k` reach: `Under(k)`
   * itself after 0 steps, `Root` one step above a top-level node, `None`
   * past the root or at an id that is not in the list.
   */
  ghost function AncAt(nodes: seq<ToolbarNode>, k: string, n: nat): Option<Parent>
    decreases n
  {
    if n == 0 then Some(Under(k))
    else match ParentOf(nodes, k)
      case None => None
      case Some(Root) => if n == 1 then Some(Root) else None
      case Some(Under(p)) => AncAt(nodes, p, n - 1)
  }

  /** `k` is `x` or lies below `x`. */
  ghost predicate BelowEq(nodes: seq<ToolbarNode>, k: string, x: string) {
    exists n :: AncAt(nodes, k, n) == Some(Under(x))
  }

  /** `k` lies strictly below `p` (below the top when `p` is `Root`). */
  ghost predicate StrictlyBelow(nodes: seq<ToolbarNode>, k: string, p: Parent) {
    exists n :: 1 <= n && AncAt(nodes, k, n) == Some(p)
  }

  /** Neither `k` nor any ancestor of `k` is the menu-toggle node. */
  ghost predicate NotUnderToggle(nodes: seq<ToolbarNode>, k: string) {
    forall n :: AncAt(nodes, k, n) != Some(Under(MenuToggle))
  }

  /** `k` is a node that may become a key: it has a title and is not the toggle. */
  ghost predicate Keyable(nodes: seq<ToolbarNode>, k: string) {
    k != MenuToggle && NodeOf(nodes, k).Some? && !PhpEmpty(NodeOf(nodes, k).value.title)
  }

  ghost function TitleOf(nodes: seq<ToolbarNode>, k: string): string {
    match NodeOf(nodes, k)
    case None => ""
    case Some(n) => n.title
  }

  lemma {:induction false} NodeOfAt(nodes: seq<ToolbarNode>, i: nat)
    requires UniqueIds(nodes) && i < |nodes|
    ensures NodeOf(nodes, nodes[i].id) == Some(nodes[i])
  {
    if i > 0 {
      assert nodes[0].id != nodes[i].id;
      assert UniqueIds(nodes[1..]) by {
        forall a, b | 0 <= a < b < |nodes[1..]| ensures nodes[1..][a].id != nodes[1..][b].id {
          assert nodes[1..][a] == nodes[a + 1] && nodes[1..][b] == nodes[b + 1];
        }
      }
      NodeOfAt(nodes[1..], i - 1);
    }
  }

  /** One step up from a listed node reaches its parent. */
  lemma StepUp(nodes: seq<ToolbarNode>, i: nat)
    requires UniqueIds(nodes) && i < |nodes|
    ensures AncAt(nodes, nodes[i].id, 1) == Some(nodes[i].parent)
  {
    NodeOfAt(nodes, i);
  }

  /** One step of the walk from a listed node. */
  lemma AncStep(nodes: seq<ToolbarNode>, k: string, n: nat, p: Parent)
    requires ParentOf(nodes, k) == Some(p) && 1 <= n
    ensures AncAt(nodes, k, n) == match p
      case Root => if n == 1 then Some(Root) else None
      case Under(q) => AncAt(nodes, q, n - 1)
  {
  }

  /** Once the walk from `k` is at `x`, it continues as the walk from `x`. */
  lemma {:induction false} Compose(nodes: seq<ToolbarNode>, k: string, m: nat, x: string, j: nat)
    requires AncAt(nodes, k, m) == Some(Under(x))
    ensures AncAt(nodes, k, m + j) == AncAt(nodes, x, j)
    decreases m
  {
    if m > 0 {
      match ParentOf(nodes, k)
      case Some(Under(p)) => Compose(nodes, p, m - 1, x, j);
    }
  }

  /** Nothing lies above the root. */
  lemma {:induction false} RootIsLast(nodes: seq<ToolbarNode>, k: string, m: nat, m': nat)
    requires AncAt(nodes, k, m) == Some(Root) && m < m'
    ensures AncAt(nodes, k, m') == None
    decreases m
  {
    match ParentOf(nodes, k)
    case Some(Under(p)) => RootIsLast(nodes, p, m - 1, m' - 1);
    case Some(Root) =>
  }

  /** A node whose walk reaches the root is not its own ancestor. */
  lemma NoCycle(nodes: seq<ToolbarNode>, x: string, depth: nat)
    requires AncAt(nodes, x, depth) == Some(Root)
    ensures forall m :: 1 <= m ==> AncAt(nodes, x, m) != Some(Under(x))
  {
    forall m | 1 <= m ensures AncAt(nodes, x, m) != Some(Under(x)) {
      if AncAt(nodes, x, m) == Some(Under(x)) {
        Compose(nodes, x, m, x, depth);
        RootIsLast(nodes, x, depth, m + depth);
        assert false;
      }
    }
  }

  /** `p` is the root, or its walk reaches the root after `depth` steps. */
  ghost predicate RootedAt(nodes: seq<ToolbarNode>, p: Parent, depth: nat) {
    p.Under? ==> AncAt(nodes, p.id, depth) == Some(Root)
  }

  lemma SiblingsOrdered(nodes: seq<ToolbarNode>, p: Parent, depth: nat, x: string, y: string, k: string, a: nat, b: nat)
    requires RootedAt(nodes, p, depth)
    requires ParentOf(nodes, x) == Some(p) && ParentOf(nodes, y) == Some(p) && x != y
    requires a <= b && AncAt(nodes, k, a) == Some(Under(x))
    ensures AncAt(nodes, k, b) != Some(Under(y))
  {
    if AncAt(nodes, k, b) == Some(Under(y)) {
      var d := b - a;
      Compose(nodes, k, a, x, d);
      if d == 0 {
        assert false;
      } else {
        Compose(nodes, x, d, y, 1);
        assert AncAt(nodes, x, d + 1) == Some(p);
        match p
        case Root =>
          assert false;
        case Under(q) =>
          Compose(nodes, x, 1, q, d);
          NoCycle(nodes, q, depth);
          assert false;
      }
    }
  }

  /** Distinct children of one rooted parent have disjoint subtrees. */
  lemma SiblingsDisjoint(nodes: seq<ToolbarNode>, p: Parent, depth: nat, x: string, y: string)
    requires RootedAt(nodes, p, depth)
    requires ParentOf(nodes, x) == Some(p) && ParentOf(nodes, y) == Some(p) && x != y
    ensures forall k :: !(BelowEq(nodes, k, x) && BelowEq(nodes, k, y))
  {
    forall k ensures !(BelowEq(nodes, k, x) && BelowEq(nodes, k, y)) {
      if BelowEq(nodes, k, x) && BelowEq(nodes, k, y) {
        var a :| AncAt(nodes, k, a) == Some(Under(x));
        var b :| AncAt(nodes, k, b) == Some(Under(y));
        if a <= b {
          SiblingsOrdered(nodes, p, depth, x, y, k, a, b);
        } else {
          SiblingsOrdered(nodes, p, depth, y, x, k, b, a);
        }
        assert false;
      }
    }
  }

  // ----- the chain of ancestors a recursive call is building for -----

  /**
   * `chain` lists, from the top, the ids whose children are being built:
   * each is a listed node whose parent is the previous one (the first is a
   * top-level node), and `parentId` is the last of them.
   */
  ghost predicate IsChain(nodes: seq<ToolbarNode>, chain: seq<string>, parentId: Parent) {
    && (forall j, l :: 0 <= j < l < |chain| ==> chain[j] != chain[l])
    && (forall j :: 0 <= j < |chain| ==> chain[j] in NodeIds(nodes) && chain[j] != MenuToggle)
    && ChainLinked(nodes, chain)
    && parentId == ChainParent(chain, |chain|)
  }

  /** Each id of the chain hangs off the one before it; the first is top-level. */
  ghost predicate ChainLinked(nodes: seq<ToolbarNode>, chain: seq<string>) {
    forall j {:trigger ParentOf(nodes, chain[j])} :: 0 <= j < |chain| ==> ParentOf(nodes, chain[j]) == Some(ChainParent(chain, j))
  }

  /** The parent the `j`-th id of a chain hangs off. */
  ghost function ChainParent(chain: seq<string>, j: nat): Parent
    requires j <= |chain|
  {
    if j == 0 then Root else Under(chain[j - 1])
  }

  /** Walking up from the `j`-th id of a chain visits the earlier ids in turn. */
  lemma {:induction false} ChainWalk(nodes: seq<ToolbarNode>, chain: seq<string>, j: nat, n: nat)
    requires ChainLinked(nodes, chain) && n <= j < |chain|
    ensures AncAt(nodes, chain[j], n) == Some(Under(chain[j - n]))
  {
    if n > 0 {
      assert ParentOf(nodes, chain[j]) == Some(Under(chain[j - 1]));
      ChainWalk(nodes, chain, j - 1, n - 1);
    }
  }

  /** ... and then the root. */
  lemma ChainTop(nodes: seq<ToolbarNode>, chain: seq<string>, j: nat)
    requires ChainLinked(nodes, chain) && j < |chain|
    ensures AncAt(nodes, chain[j], j + 1) == Some(Root)
  {
    ChainWalk(nodes, chain, j, j);
    Compose(nodes, chain[j], j, chain[0], 1);
    assert ParentOf(nodes, chain[0]) == Some(Root);
  }

  lemma ChainFacts(nodes: seq<ToolbarNode>, chain: seq<string>, p: Parent)
    requires IsChain(nodes, chain, p)
    ensures RootedAt(nodes, p, |chain|)
    ensures p.Under? ==> NotUnderToggle(nodes, p.id)
  {
    if p.Under? {
      var last := |chain| - 1;
      ChainTop(nodes, chain, last);
      forall n: nat ensures AncAt(nodes, p.id, n) != Some(Under(MenuToggle)) {
        if n <= last {
          ChainWalk(nodes, chain, last, n);
        } else if n > last + 1 {
          RootIsLast(nodes, p.id, last + 1, n);
        }
      }
    }
  }

  /** A node hanging off the chain's end is not on the chain. */
  lemma ChildOffChain(nodes: seq<ToolbarNode>, chain: seq<string>, p: Parent, i: nat)
    requires UniqueIds(nodes) && IsChain(nodes, chain, p)
    requires i < |nodes| && nodes[i].parent == p
    ensures nodes[i].id !in chain
  {
    NodeOfAt(nodes, i);
    forall j | 0 <= j < |chain| ensures chain[j] != nodes[i].id {
      assert ParentOf(nodes, chain[j]) == Some(ChainParent(chain, j));
      if j > 0 { assert chain[j - 1] != chain[|chain| - 1]; }
      assert ChainParent(chain, j) != p;
    }
  }

  lemma ChainExtend(nodes: seq<ToolbarNode>, chain: seq<string>, p: Parent, i: nat)
    requires UniqueIds(nodes) && IsChain(nodes, chain, p)
    requires i < |nodes| && nodes[i].parent == p && nodes[i].id != MenuToggle
    ensures IsChain(nodes, chain + [nodes[i].id], Under(nodes[i].id))
    ensures (NodeIds(nodes) - set x | x in chain + [nodes[i].id]) < (NodeIds(nodes) - set x | x in chain)
  {
    ChildOffChain(nodes, chain, p, i);
    NodeOfAt(nodes, i);
    var id := nodes[i].id;
    var c := chain + [id];
    ChainLinkedExtend(nodes, chain, id, p);
    forall a, b | 0 <= a < b < |c| ensures c[a] != c[b] {
      if b == |chain| { assert c[a] == chain[a]; } else { assert c[a] == chain[a] && c[b] == chain[b]; }
    }
    forall j | 0 <= j < |c| ensures c[j] in NodeIds(nodes) && c[j] != MenuToggle {
      if j < |chain| { assert c[j] == chain[j]; }
    }
    assert ChainParent(c, |c|) == Under(id);
    ChainSetExtend(nodes, chain, i);
  }

  lemma ChainLinkedExtend(nodes: seq<ToolbarNode>, chain: seq<string>, id: string, p: Parent)
    requires ChainLinked(nodes, chain) && p == ChainParent(chain, |chain|)
    requires ParentOf(nodes, id) == Some(p)
    ensures ChainLinked(nodes, chain + [id])
  {
    var c := chain + [id];
    forall j | 0 <= j < |c| ensures ParentOf(nodes, c[j]) == Some(ChainParent(c, j)) {
      if j < |chain| {
        assert c[j] == chain[j];
        assert ChainParent(c, j) == ChainParent(chain, j);
      } else {
        assert c[j] == id;
        assert ChainParent(c, j) == ChainParent(chain, |chain|);
      }
    }
  }

  lemma ChainSetExtend(nodes: seq<ToolbarNode>, chain: seq<string>, i: nat)
    requires i < |nodes| && nodes[i].id !in chain
    ensures (NodeIds(nodes) - set x | x in chain + [nodes[i].id]) < (NodeIds(nodes) - set x | x in chain)
  {
    var id := nodes[i].id;
    assert id in NodeIds(nodes);
    assert (set x | x in chain + [id]) == (set x | x in chain) + {id};
  }

  // ----- the shape of a built structure -----

  /** Every key at every depth. */
  ghost function AllKeys(s: seq<Entry>): set<string>
    decreases s
  {
    if |s| == 0 then {}
    else AllKeys(s[..|s| - 1]) + {s[|s| - 1].key} + AllKeys(s[|s| - 1].node.children)
  }

  /** The keys of an entry and of everything below it. */
  ghost function Footprint(e: Entry): set<string> {
    {e.key} + AllKeys(e.node.children)
  }

  /** Every key of the whole tree occurs exactly once. */
  ghost predicate Disjoint(s: seq<Entry>)
    decreases s
  {
    && (forall i :: 0 <= i < |s| ==>
          s[i].key !in AllKeys(s[i].node.children) && Disjoint(s[i].node.children))
    && (forall i, j :: 0 <= i < j < |s| ==> Footprint(s[i]) !! Footprint(s[j]))
  }

  /** Keys are record ids, and records point at the id their level was built for. */
  ghost predicate Shaped(s: seq<Entry>, parentId: Parent)
    decreases s
  {
    forall i :: 0 <= i < |s| ==>
      s[i].key == s[i].node.id && s[i].node.parent == parentId &&
      Shaped(s[i].node.children, Under(s[i].key))
  }

  /** Each record's title is the mapped, tag-stripped title of its node. */
  ghost predicate TitlesMapped(nodes: seq<ToolbarNode>, titleMap: map<string, string>, strip: string -> string, s: seq<Entry>)
    decreases s
  {
    forall i :: 0 <= i < |s| ==>
      s[i].node.title == MappedTitle(titleMap, s[i].key, strip(TitleOf(nodes, s[i].key))) &&
      TitlesMapped(nodes, titleMap, strip, s[i].node.children)
  }

  /** Where a key of a level built for `parentId` may come from. */
  ghost predicate KeyOrigin(nodes: seq<ToolbarNode>, parentId: Parent, k: string) {
    Keyable(nodes, k) && NotUnderToggle(nodes, k) && StrictlyBelow(nodes, k, parentId)
  }

  ghost predicate LevelInv(nodes: seq<ToolbarNode>, parentId: Parent, titleMap: map<string, string>,
                           strip: string -> string, s: seq<Entry>) {
    && Shaped(s, parentId)
    && Disjoint(s)
    && TitlesMapped(nodes, titleMap, strip, s)
    && forall k :: k in AllKeys(s) ==> KeyOrigin(nodes, parentId, k)
  }

  /** A node the level's `foreach` places, as itself or through its children. */
  ghost predicate Sibling(nodes: seq<ToolbarNode>, parentId: Parent, i: int) {
    0 <= i < |nodes| && nodes[i].parent == parentId && nodes[i].id != MenuToggle
  }

  /** `k` came from one of the first `i` nodes of the scan. */
  ghost predicate OwnedBefore(nodes: seq<ToolbarNode>, parentId: Parent, k: string, i: int) {
    exists j :: 0 <= j < i && Sibling(nodes, parentId, j) && BelowEq(nodes, k, nodes[j].id)
  }

  lemma AllKeysConcat(a: seq<Entry>, b: seq<Entry>)
    ensures AllKeys(a + b) == AllKeys(a) + AllKeys(b)
    decreases |b|
  {
    if |b| > 0 {
      var c := a + b;
      assert c[..|c| - 1] == a + b[..|b| - 1];
      AllKeysConcat(a, b[..|b| - 1]);
    } else {
      assert a + b == a;
    }
  }

  lemma {:induction false} FootprintInAll(s: seq<Entry>, i: nat)
    requires i < |s|
    ensures Footprint(s[i]) <= AllKeys(s)
  {
    var n := |s| - 1;
    if i < n {
      FootprintInAll(s[..n], i);
      assert s[..n][i] == s[i];
    }
  }

  lemma {:induction false} AllKeysMember(s: seq<Entry>, k: string)
    requires k in AllKeys(s)
    ensures exists i :: 0 <= i < |s| && k in Footprint(s[i])
  {
    var n := |s| - 1;
    if k !in Footprint(s[n]) {
      AllKeysMember(s[..n], k);
      var i :| 0 <= i < n && k in Footprint(s[..n][i]);
      assert s[..n][i] == s[i];
    }
  }

  lemma LevelKeysInAll(s: seq<Entry>)
    ensures LevelKeys(s) <= AllKeys(s)
  {
    forall k | k in LevelKeys(s) ensures k in AllKeys(s) {
      var i :| 0 <= i < |s| && s[i].key == k;
      FootprintInAll(s, i);
    }
  }

  lemma DisjointConcat(a: seq<Entry>, b: seq<Entry>)
    requires Disjoint(a) && Disjoint(b) && AllKeys(a) !! AllKeys(b)
    ensures Disjoint(a + b)
  {
    var c := a + b;
    forall i, j | 0 <= i < j < |c| ensures Footprint(c[i]) !! Footprint(c[j]) {
      if j >= |a| && i < |a| {
        FootprintInAll(a, i);
        FootprintInAll(b, j - |a|);
      } else if j >= |a| {
        assert c[i] == b[i - |a|] && c[j] == b[j - |a|];
      }
    }
    assert forall i :: 0 <= i < |c| ==> c[i] == if i < |a| then a[i] else b[i - |a|];
  }

  lemma ReparentedKeys(c: seq<Entry>, p: Parent)
    ensures AllKeys(Reparented(c, p)) == AllKeys(c)
    decreases |c|
  {
    if |c| > 0 {
      var n := |c| - 1;
      assert Reparented(c, p)[..n] == Reparented(c[..n], p);
      ReparentedKeys(c[..n], p);
    }
  }

  /** Every key of `s` came from one of the first `i` nodes of the scan. */
  ghost predicate OwnedAll(nodes: seq<ToolbarNode>, parentId: Parent, s: seq<Entry>, i: int) {
    forall k :: k in AllKeys(s) ==> OwnedBefore(nodes, parentId, k, i)
  }

  /** Every key in `keys` is `x` or lies below `x`. */
  ghost predicate BelowAll(nodes: seq<ToolbarNode>, keys: set<string>, x: string) {
    forall k :: k in keys ==> BelowEq(nodes, k, x)
  }

  lemma ReparentedInv(nodes: seq<ToolbarNode>, x: string, p: Parent, titleMap: map<string, string>,
                      strip: string -> string, c: seq<Entry>)
    requires LevelInv(nodes, Under(x), titleMap, strip, c)
    requires ParentOf(nodes, x) == Some(p)
    ensures LevelInv(nodes, p, titleMap, strip, Reparented(c, p))
    ensures BelowAll(nodes, AllKeys(Reparented(c, p)), x)
  {
    var r := Reparented(c, p);
    ReparentedKeys(c, p);
    ReparentedShape(nodes, x, p, titleMap, strip, c);
    forall k | k in AllKeys(c) ensures KeyOrigin(nodes, p, k) && BelowEq(nodes, k, x) {
      LiftOrigin(nodes, x, p, k);
    }
  }

  /** A key strictly below `x` is below `x`'s parent and at or below `x`. */
  lemma LiftOrigin(nodes: seq<ToolbarNode>, x: string, p: Parent, k: string)
    requires ParentOf(nodes, x) == Some(p) && KeyOrigin(nodes, Under(x), k)
    ensures KeyOrigin(nodes, p, k) && BelowEq(nodes, k, x)
  {
    var m :| 1 <= m && AncAt(nodes, k, m) == Some(Under(x));
    Compose(nodes, k, m, x, 1);
    assert AncAt(nodes, k, m + 1) == Some(p);
  }

  /** The spliced children keep their shape, with the new parent id. */
  lemma ReparentedShape(nodes: seq<ToolbarNode>, x: string, p: Parent, titleMap: map<string, string>,
                        strip: string -> string, c: seq<Entry>)
    requires Shaped(c, Under(x)) && Disjoint(c) && TitlesMapped(nodes, titleMap, strip, c)
    ensures Shaped(Reparented(c, p), p) && Disjoint(Reparented(c, p))
    ensures TitlesMapped(nodes, titleMap, strip, Reparented(c, p))
  {
    var r := Reparented(c, p);
    assert forall i :: 0 <= i < |r| ==> Footprint(r[i]) == Footprint(c[i]);
  }

  lemma LevelInvConcat(nodes: seq<ToolbarNode>, p: Parent, titleMap: map<string, string>,
                       strip: string -> string, a: seq<Entry>, b: seq<Entry>)
    requires LevelInv(nodes, p, titleMap, strip, a) && LevelInv(nodes, p, titleMap, strip, b)
    requires AllKeys(a) !! AllKeys(b)
    ensures LevelInv(nodes, p, titleMap, strip, a + b)
    ensures AllKeys(a + b) == AllKeys(a) + AllKeys(b)
  {
    DisjointConcat(a, b);
    AllKeysConcat(a, b);
    var c := a + b;
    assert forall j :: 0 <= j < |c| ==> c[j] == if j < |a| then a[j] else b[j - |a|];
  }

  lemma OwnedLater(nodes: seq<ToolbarNode>, p: Parent, s: seq<Entry>, i: int)
    requires OwnedAll(nodes, p, s, i)
    ensures OwnedAll(nodes, p, s, i + 1)
  {
    forall k | k in AllKeys(s) ensures OwnedBefore(nodes, p, k, i + 1) {
      var j :| 0 <= j < i && Sibling(nodes, p, j) && BelowEq(nodes, k, nodes[j].id);
    }
  }

  lemma OwnedStep(nodes: seq<ToolbarNode>, p: Parent, s: seq<Entry>, i: int, b: seq<Entry>)
    requires OwnedAll(nodes, p, s, i) && Sibling(nodes, p, i)
    requires BelowAll(nodes, AllKeys(b), nodes[i].id)
    ensures OwnedAll(nodes, p, s + b, i + 1)
  {
    AllKeysConcat(s, b);
    forall k | k in AllKeys(s + b) ensures OwnedBefore(nodes, p, k, i + 1) {
      if k in AllKeys(s) {
        var j :| 0 <= j < i && Sibling(nodes, p, j) && BelowEq(nodes, k, nodes[j].id);
      } else {
        assert Sibling(nodes, p, i) && BelowEq(nodes, k, nodes[i].id);
      }
    }
  }

  /** What node `i` contributes is disjoint from what the earlier siblings did. */
  lemma FreshContribution(nodes: seq<ToolbarNode>, chain: seq<string>, p: Parent, i: nat,
                          acc: seq<Entry>, keys: set<string>)
    requires UniqueIds(nodes) && IsChain(nodes, chain, p) && Sibling(nodes, p, i)
    requires OwnedAll(nodes, p, acc, i)
    requires BelowAll(nodes, keys, nodes[i].id)
    ensures AllKeys(acc) !! keys
  {
    ChainFacts(nodes, chain, p);
    NodeOfAt(nodes, i);
    forall k | k in keys ensures k !in AllKeys(acc) {
      if k in AllKeys(acc) {
        var j :| 0 <= j < i && Sibling(nodes, p, j) && BelowEq(nodes, k, nodes[j].id);
        NodeOfAt(nodes, j);
        SiblingsDisjoint(nodes, p, |chain|, nodes[j].id, nodes[i].id);
        assert false;
      }
    }
  }

  /** The record `buildNodeStructure` stores for a titled node. */
  function TitledEntry(n: ToolbarNode, titleMap: map<string, string>, strip: string -> string, children: seq<Entry>): Entry {
    Entry(n.id, Record(n.id, MappedTitle(titleMap, n.id, strip(n.title)), n.parent, children))
  }

  lemma AllKeysSingle(e: Entry)
    ensures AllKeys([e]) == Footprint(e)
  {
    assert [e][..0] == [];
  }

  /** A titled node's entry, on its own, is a well-formed level below the chain's end. */
  lemma TitledEntryInv(nodes: seq<ToolbarNode>, chain: seq<string>, p: Parent, titleMap: map<string, string>,
                       strip: string -> string, i: nat, children: seq<Entry>)
    requires UniqueIds(nodes) && IsChain(nodes, chain, p) && Sibling(nodes, p, i)
    requires !PhpEmpty(nodes[i].title)
    requires LevelInv(nodes, Under(nodes[i].id), titleMap, strip, children)
    ensures LevelInv(nodes, p, titleMap, strip, [TitledEntry(nodes[i], titleMap, strip, children)])
    ensures BelowAll(nodes, AllKeys([TitledEntry(nodes[i], titleMap, strip, children)]), nodes[i].id)
  {
    var e := TitledEntry(nodes[i], titleMap, strip, children);
    AllKeysSingle(e);
    TitledEntryShape(nodes, chain, p, titleMap, strip, i, children);
    TitledEntryOrigin(nodes, chain, p, titleMap, strip, i, children);
  }

  lemma TitledEntryShape(nodes: seq<ToolbarNode>, chain: seq<string>, p: Parent, titleMap: map<string, string>,
                         strip: string -> string, i: nat, children: seq<Entry>)
    requires UniqueIds(nodes) && IsChain(nodes, chain, p) && Sibling(nodes, p, i)
    requires LevelInv(nodes, Under(nodes[i].id), titleMap, strip, children)
    ensures var e := TitledEntry(nodes[i], titleMap, strip, children);
            Disjoint([e]) && Shaped([e], p) && TitlesMapped(nodes, titleMap, strip, [e])
  {
    var n := nodes[i];
    var e := TitledEntry(n, titleMap, strip, children);
    NodeOfAt(nodes, i);
    ChainExtend(nodes, chain, p, i);
    var c' := chain + [n.id];
    ChainFacts(nodes, c', Under(n.id));
    NoCycle(nodes, n.id, |c'|);
    assert n.id !in AllKeys(children);
    assert Disjoint([e]);
  }

  lemma TitledEntryOrigin(nodes: seq<ToolbarNode>, chain: seq<string>, p: Parent, titleMap: map<string, string>,
                          strip: string -> string, i: nat, children: seq<Entry>)
    requires UniqueIds(nodes) && IsChain(nodes, chain, p) && Sibling(nodes, p, i)
    requires !PhpEmpty(nodes[i].title)
    requires forall k :: k in AllKeys(children) ==> KeyOrigin(nodes, Under(nodes[i].id), k)
    ensures var e := TitledEntry(nodes[i], titleMap, strip, children);
            (forall k :: k in Footprint(e) ==> KeyOrigin(nodes, p, k)) && BelowAll(nodes, Footprint(e), nodes[i].id)
  {
    var n := nodes[i];
    NodeOfAt(nodes, i);
    ChainExtend(nodes, chain, p, i);
    ChainFacts(nodes, chain + [n.id], Under(n.id));
    StepUp(nodes, i);
    assert KeyOrigin(nodes, p, n.id);
    assert AncAt(nodes, n.id, 0) == Some(Under(n.id));
    forall k | k in AllKeys(children) ensures KeyOrigin(nodes, p, k) && BelowEq(nodes, k, n.id) {
      LiftOrigin(nodes, n.id, p, k);
    }
  }

  /** Scan step for a titled node: its record is appended under a fresh key. */
  lemma TitledStep(nodes: seq<ToolbarNode>, chain: seq<string>, p: Parent, titleMap: map<string, string>,
                   strip: string -> string, i: nat, acc: seq<Entry>, children: seq<Entry>)
    requires UniqueIds(nodes) && IsChain(nodes, chain, p) && Sibling(nodes, p, i)
    requires !PhpEmpty(nodes[i].title)
    requires LevelInv(nodes, p, titleMap, strip, acc) && OwnedAll(nodes, p, acc, i)
    requires LevelInv(nodes, Under(nodes[i].id), titleMap, strip, children)
    ensures var e := TitledEntry(nodes[i], titleMap, strip, children);
            && StructurePut(acc, e.key, e.node) == acc + [e]
            && LevelInv(nodes, p, titleMap, strip, acc + [e])
            && OwnedAll(nodes, p, acc + [e], i + 1)
  {
    var e := TitledEntry(nodes[i], titleMap, strip, children);
    TitledEntryInv(nodes, chain, p, titleMap, strip, i, children);
    FreshContribution(nodes, chain, p, i, acc, AllKeys([e]));
    LevelInvConcat(nodes, p, titleMap, strip, acc, [e]);
    OwnedStep(nodes, p, acc, i, [e]);
    LevelKeysInAll(acc);
    AllKeysSingle(e);
  }

  lemma DisjointDistinct(s: seq<Entry>)
    requires Disjoint(s)
    ensures DistinctLevel(s)
  {
    forall a, b | 0 <= a < b < |s| ensures s[a].key != s[b].key {
      assert s[a].key in Footprint(s[a]) && s[b].key in Footprint(s[b]);
    }
  }

  /** Keys of a level are distinct (what `Disjoint` gives at the top level). */
  ghost predicate DistinctLevel(c: seq<Entry>) {
    forall i, j :: 0 <= i < j < |c| ==> c[i].key != c[j].key
  }

  lemma {:induction false} SpliceAppends(acc: seq<Entry>, c: seq<Entry>, p: Parent)
    requires LevelKeys(acc) !! LevelKeys(c)
    requires DistinctLevel(c)
    ensures Splice(acc, c, p) == acc + Reparented(c, p)
    decreases |c|
  {
    if |c| > 0 {
      var e := Entry(c[0].key, c[0].node.(parent := p));
      TailLevel(c);
      var acc' := StructurePut(acc, c[0].key, e.node);
      assert acc' == acc + [e];
      assert Splice(acc, c, p) == Splice(acc', c[1..], p);
      LevelKeysAppend(acc, e);
      SpliceAppends(acc', c[1..], p);
      ReparentedCons(c, p);
      AppendAssoc(acc, [e], Reparented(c[1..], p));
    }
  }

  /** Associativity of `+`, stated on its own to keep the solver cost of its callers low. */
  lemma AppendAssoc<T>(a: seq<T>, b: seq<T>, c: seq<T>)
    ensures a + b + c == a + (b + c)
  {
  }

  lemma TailLevel(c: seq<Entry>)
    requires |c| > 0 && DistinctLevel(c)
    ensures c[0].key in LevelKeys(c)
    ensures LevelKeys(c[1..]) <= LevelKeys(c) - {c[0].key}
    ensures DistinctLevel(c[1..])
  {
    forall y | y in LevelKeys(c[1..]) ensures y in LevelKeys(c) - {c[0].key} {
      var j :| 0 <= j < |c[1..]| && c[1..][j].key == y;
      assert c[j + 1].key == y;
    }
    forall a, b | 0 <= a < b < |c[1..]| ensures c[1..][a].key != c[1..][b].key {
      assert c[1..][a] == c[a + 1] && c[1..][b] == c[b + 1];
    }
  }

  lemma ReparentedCons(c: seq<Entry>, p: Parent)
    requires |c| > 0
    ensures Reparented(c, p) == [Entry(c[0].key, c[0].node.(parent := p))] + Reparented(c[1..], p)
  {
  }

  lemma LevelKeysAppend(s: seq<Entry>, e: Entry)
    ensures LevelKeys(s + [e]) == LevelKeys(s) + {e.key}
  {
    var b := s + [e];
    forall y | y in LevelKeys(b) ensures y in LevelKeys(s) + {e.key} {
      var i :| 0 <= i < |b| && b[i].key == y;
      if i < |s| { assert s[i].key == y; }
    }
    forall y | y in LevelKeys(s) ensures y in LevelKeys(b) {
      var i :| 0 <= i < |s| && s[i].key == y;
      assert b[i].key == y;
    }
    assert b[|s|].key == e.key;
  }

  /** Scan step for a title-less node: its children are appended, re-parented. */
  lemma TitlelessStep(nodes: seq<ToolbarNode>, chain: seq<string>, p: Parent, titleMap: map<string, string>,
                      strip: string -> string, i: nat, acc: seq<Entry>, children: seq<Entry>)
    requires UniqueIds(nodes) && IsChain(nodes, chain, p) && Sibling(nodes, p, i)
    requires LevelInv(nodes, p, titleMap, strip, acc) && OwnedAll(nodes, p, acc, i)
    requires LevelInv(nodes, Under(nodes[i].id), titleMap, strip, children)
    ensures Splice(acc, children, p) == acc + Reparented(children, p)
    ensures LevelInv(nodes, p, titleMap, strip, acc + Reparented(children, p))
    ensures OwnedAll(nodes, p, acc + Reparented(children, p), i + 1)
  {
    NodeOfAt(nodes, i);
    var r := Reparented(children, p);
    ReparentedInv(nodes, nodes[i].id, p, titleMap, strip, children);
    FreshContribution(nodes, chain, p, i, acc, AllKeys(r));
    LevelInvConcat(nodes, p, titleMap, strip, acc, r);
    OwnedStep(nodes, p, acc, i, r);
    LevelKeysInAll(acc);
    LevelKeysInAll(children);
    ReparentedKeys(children, p);
    DisjointDistinct(children);
    SpliceAppends(acc, children, p);
  }

  /**
   * `buildNodeStructure($nodes, $parentId)`. The ghost `chain` (the ids
   * whose children are being built, from the top) only serves the
   * termination argument: a node hanging off the chain is never on it, so
   * every recursive call adds a fresh node id to it.
   */
  function BuildNodeStructure(nodes: seq<ToolbarNode>, parentId: Parent, ghost chain: seq<string>,
                              titleMap: map<string, string>, strip: string -> string): (s: seq<Entry>)
    requires UniqueIds(nodes) && IsChain(nodes, chain, parentId)
    ensures LevelInv(nodes, parentId, titleMap, strip, s)
    ensures forall j :: Sibling(nodes, parentId, j) && !PhpEmpty(nodes[j].title) ==> nodes[j].id in LevelKeys(s)
    decreases NodeIds(nodes) - set x | x in chain, 1
  {
    ScanNodes(nodes, parentId, chain, titleMap, strip, 0, [])
  }

  /** The `foreach ($nodes as $node)` loop of `buildNodeStructure`, from node `i` on. */
  function ScanNodes(nodes: seq<ToolbarNode>, parentId: Parent, ghost chain: seq<string>,
                     titleMap: map<string, string>, strip: string -> string,
                     i: nat, acc: seq<Entry>): (s: seq<Entry>)
    requires UniqueIds(nodes) && IsChain(nodes, chain, parentId) && i <= |nodes|
    requires LevelInv(nodes, parentId, titleMap, strip, acc)
    requires OwnedAll(nodes, parentId, acc, i)
    ensures LevelInv(nodes, parentId, titleMap, strip, s)
    ensures LevelKeys(acc) <= LevelKeys(s)
    ensures forall j :: i <= j && Sibling(nodes, parentId, j) && !PhpEmpty(nodes[j].title) ==> nodes[j].id in LevelKeys(s)
    decreases NodeIds(nodes) - set x | x in chain, 0, |nodes| - i
  {
    if i == |nodes| then acc
    else
      var node := nodes[i];
      if node.id == MenuToggle || node.parent != parentId then
        OwnedLater(nodes, parentId, acc, i);
        ScanNodes(nodes, parentId, chain, titleMap, strip, i + 1, acc)
      else
        ChainExtend(nodes, chain, parentId, i);
        var children := BuildNodeStructure(nodes, Under(node.id), chain + [node.id], titleMap, strip);
        if PhpEmpty(node.title) then
          TitlelessStep(nodes, chain, parentId, titleMap, strip, i, acc, children);
          ScanNodes(nodes, parentId, chain, titleMap, strip, i + 1, Splice(acc, children, parentId))
        else
          var e := TitledEntry(node, titleMap, strip, children);
          TitledStep(nodes, chain, parentId, titleMap, strip, i, acc, children);
          LevelKeysAppend(acc, e);
          ScanNodes(nodes, parentId, chain, titleMap, strip, i + 1, StructurePut(acc, node.id, e.node))
  }

  /** The structure `storeOriginalAdminBar` caches: the levels below `false`. */
  function BuildTree(nodes: seq<ToolbarNode>, titleMap: map<string, string>, strip: string -> string): (s: seq<Entry>)
    requires UniqueIds(nodes)
    ensures LevelInv(nodes, Root, titleMap, strip, s)
  {
    BuildNodeStructure(nodes, Root, [], titleMap, strip)
  }
}
