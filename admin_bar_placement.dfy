/**
 * What `buildNodeStructure` must place, the converse of the shape proved
 * with it: every titled node that hangs, at any depth, off the level's
 * parent with no `menu-toggle` on its path is a key somewhere below the
 * level, and the children of a title-less node are keys of the level
 * itself.
 */
module AdminBarPlacement {
  import opened PhpArray
  import opened AdminBarTree

  /** What the scan appends for node `i`: nothing, the node's record, or its lifted children. */
  ghost function Contribution(nodes: seq<ToolbarNode>, parentId: Parent, chain: seq<string>,
                              titleMap: map<string, string>, strip: string -> string, i: nat): seq<Entry>
    requires UniqueIds(nodes) && IsChain(nodes, chain, parentId) && i < |nodes|
  {
    var node := nodes[i];
    if node.id == MenuToggle || node.parent != parentId then []
    else
      ChainExtend(nodes, chain, parentId, i);
      var children := BuildNodeStructure(nodes, Under(node.id), chain + [node.id], titleMap, strip);
      if PhpEmpty(node.title) then Reparented(children, parentId)
      else [TitledEntry(node, titleMap, strip, children)]
  }

  /** One turn of the scan appends node `i`'s contribution and keeps the scan's invariant. */
  lemma ScanStep(nodes: seq<ToolbarNode>, parentId: Parent, chain: seq<string>,
                 titleMap: map<string, string>, strip: string -> string, i: nat, acc: seq<Entry>)
    requires UniqueIds(nodes) && IsChain(nodes, chain, parentId) && i < |nodes|
    requires LevelInv(nodes, parentId, titleMap, strip, acc)
    requires OwnedAll(nodes, parentId, acc, i)
    ensures var next := acc + Contribution(nodes, parentId, chain, titleMap, strip, i);
            && LevelInv(nodes, parentId, titleMap, strip, next)
            && OwnedAll(nodes, parentId, next, i + 1)
            && ScanNodes(nodes, parentId, chain, titleMap, strip, i, acc) ==
               ScanNodes(nodes, parentId, chain, titleMap, strip, i + 1, next)
  {
    var node := nodes[i];
    if node.id == MenuToggle || node.parent != parentId {
      OwnedLater(nodes, parentId, acc, i);
      assert acc + [] == acc;
    } else {
      ChainExtend(nodes, chain, parentId, i);
      var children := BuildNodeStructure(nodes, Under(node.id), chain + [node.id], titleMap, strip);
      if PhpEmpty(node.title) {
        TitlelessStep(nodes, chain, parentId, titleMap, strip, i, acc, children);
      } else {
        TitledStep(nodes, chain, parentId, titleMap, strip, i, acc, children);
      }
    }
  }

  /** `k` is, or lies below, one of the level's siblings from node `i` on. */
  ghost predicate OwnedFrom(nodes: seq<ToolbarNode>, parentId: Parent, k: string, i: nat) {
    exists j :: i <= j && Sibling(nodes, parentId, j) && BelowEq(nodes, k, nodes[j].id)
  }

  /** The first node with an id is a listed node. */
  lemma {:induction false} NodeOfListed(nodes: seq<ToolbarNode>, k: string)
    requires NodeOf(nodes, k).Some?
    ensures exists j :: 0 <= j < |nodes| && nodes[j] == NodeOf(nodes, k).value && nodes[j].id == k
  {
    if nodes[0].id != k {
      NodeOfListed(nodes[1..], k);
      var j :| 0 <= j < |nodes[1..]| && nodes[1..][j] == NodeOf(nodes[1..], k).value && nodes[1..][j].id == k;
      assert nodes[j + 1] == nodes[1..][j];
    }
  }

  /** A walk that reaches `p` after `n >= 1` steps was, one step earlier, at a node whose parent is `p`. */
  lemma {:induction false} LastStep(nodes: seq<ToolbarNode>, k: string, n: nat, p: Parent)
    requires 1 <= n && AncAt(nodes, k, n) == Some(p)
    ensures exists x :: AncAt(nodes, k, n - 1) == Some(Under(x)) && ParentOf(nodes, x) == Some(p)
    decreases n
  {
    match ParentOf(nodes, k)
    case Some(Root) =>
      assert AncAt(nodes, k, 0) == Some(Under(k));
    case Some(Under(q)) =>
      if n == 1 {
        assert AncAt(nodes, k, 0) == Some(Under(k));
      } else {
        LastStep(nodes, q, n - 1, p);
        var x :| AncAt(nodes, q, n - 2) == Some(Under(x)) && ParentOf(nodes, x) == Some(p);
        assert AncAt(nodes, k, n - 1) == AncAt(nodes, q, n - 2);
      }
  }

  /** A possible key of a level lies below one of the level's siblings. */
  lemma TopSibling(nodes: seq<ToolbarNode>, parentId: Parent, k: string)
    requires KeyOrigin(nodes, parentId, k)
    ensures OwnedFrom(nodes, parentId, k, 0)
  {
    var n :| 1 <= n && AncAt(nodes, k, n) == Some(parentId);
    LastStep(nodes, k, n, parentId);
    var x :| AncAt(nodes, k, n - 1) == Some(Under(x)) && ParentOf(nodes, x) == Some(parentId);
    NodeOfListed(nodes, x);
    var j :| 0 <= j < |nodes| && nodes[j] == NodeOf(nodes, x).value && nodes[j].id == x;
    assert x != MenuToggle;
    assert Sibling(nodes, parentId, j) && BelowEq(nodes, k, nodes[j].id);
  }

  /** A possible key below sibling `i` is the sibling itself, titled, or a possible key of the sibling's own level. */
  lemma OwnedHere(nodes: seq<ToolbarNode>, parentId: Parent, k: string, i: nat)
    requires UniqueIds(nodes) && KeyOrigin(nodes, parentId, k)
    requires Sibling(nodes, parentId, i) && BelowEq(nodes, k, nodes[i].id)
    ensures (k == nodes[i].id && !PhpEmpty(nodes[i].title)) || KeyOrigin(nodes, Under(nodes[i].id), k)
  {
    var n :| AncAt(nodes, k, n) == Some(Under(nodes[i].id));
    if n == 0 {
      NodeOfAt(nodes, i);
    } else {
      assert StrictlyBelow(nodes, k, Under(nodes[i].id));
    }
  }

  /** Every possible key of a level is placed somewhere in the structure built for it. */
  lemma BuildComplete(nodes: seq<ToolbarNode>, parentId: Parent, chain: seq<string>,
                      titleMap: map<string, string>, strip: string -> string)
    requires UniqueIds(nodes) && IsChain(nodes, chain, parentId)
    ensures forall k :: KeyOrigin(nodes, parentId, k) ==>
              k in AllKeys(BuildNodeStructure(nodes, parentId, chain, titleMap, strip))
    decreases NodeIds(nodes) - set x | x in chain, 1
  {
    forall k | KeyOrigin(nodes, parentId, k) ensures OwnedFrom(nodes, parentId, k, 0) {
      TopSibling(nodes, parentId, k);
    }
    ScanComplete(nodes, parentId, chain, titleMap, strip, 0, []);
  }

  /** The scan from node `i` keeps what it was given and places every possible key below a later sibling. */
  lemma ScanComplete(nodes: seq<ToolbarNode>, parentId: Parent, chain: seq<string>,
                     titleMap: map<string, string>, strip: string -> string, i: nat, acc: seq<Entry>)
    requires UniqueIds(nodes) && IsChain(nodes, chain, parentId) && i <= |nodes|
    requires LevelInv(nodes, parentId, titleMap, strip, acc)
    requires OwnedAll(nodes, parentId, acc, i)
    ensures AllKeys(acc) <= AllKeys(ScanNodes(nodes, parentId, chain, titleMap, strip, i, acc))
    ensures forall k :: KeyOrigin(nodes, parentId, k) && OwnedFrom(nodes, parentId, k, i) ==>
              k in AllKeys(ScanNodes(nodes, parentId, chain, titleMap, strip, i, acc))
    decreases NodeIds(nodes) - set x | x in chain, 0, |nodes| - i, 1
  {
    if i == |nodes| {
      OwnedFromSplit(nodes, parentId, i);
    } else {
      var c := Contribution(nodes, parentId, chain, titleMap, strip, i);
      var next := acc + c;
      ScanStep(nodes, parentId, chain, titleMap, strip, i, acc);
      ScanComplete(nodes, parentId, chain, titleMap, strip, i + 1, next);
      if Sibling(nodes, parentId, i) {
        ContributionComplete(nodes, parentId, chain, titleMap, strip, i);
      }
      PlacedThrough(nodes, parentId, i, acc, c, ScanNodes(nodes, parentId, chain, titleMap, strip, i + 1, next));
    }
  }

  /** What the rest of the scan places, together with sibling `i`'s contribution, covers everything owned from `i`. */
  lemma PlacedThrough(nodes: seq<ToolbarNode>, parentId: Parent, i: nat, acc: seq<Entry>, c: seq<Entry>, s: seq<Entry>)
    requires AllKeys(acc + c) <= AllKeys(s)
    requires forall k :: KeyOrigin(nodes, parentId, k) && OwnedFrom(nodes, parentId, k, i + 1) ==> k in AllKeys(s)
    requires Sibling(nodes, parentId, i) ==>
               forall k :: KeyOrigin(nodes, parentId, k) && BelowEq(nodes, k, nodes[i].id) ==> k in AllKeys(c)
    ensures AllKeys(acc) <= AllKeys(s)
    ensures forall k :: KeyOrigin(nodes, parentId, k) && OwnedFrom(nodes, parentId, k, i) ==> k in AllKeys(s)
  {
    AllKeysConcat(acc, c);
    OwnedFromSplit(nodes, parentId, i);
  }

  /** Owned from `i` means owned by sibling `i` or from `i + 1`; nothing is owned past the end. */
  lemma OwnedFromSplit(nodes: seq<ToolbarNode>, parentId: Parent, i: nat)
    ensures forall k :: OwnedFrom(nodes, parentId, k, i) ==>
              OwnedFrom(nodes, parentId, k, i + 1) || (Sibling(nodes, parentId, i) && BelowEq(nodes, k, nodes[i].id))
    ensures i >= |nodes| ==> forall k :: !OwnedFrom(nodes, parentId, k, i)
  {
    forall k | OwnedFrom(nodes, parentId, k, i)
      ensures OwnedFrom(nodes, parentId, k, i + 1) || (Sibling(nodes, parentId, i) && BelowEq(nodes, k, nodes[i].id))
    {
      var j :| i <= j && Sibling(nodes, parentId, j) && BelowEq(nodes, k, nodes[j].id);
      if j != i {
        assert OwnedFrom(nodes, parentId, k, i + 1);
      }
    }
  }

  /** What sibling `i` contributes holds every possible key of the level at or below it. */
  lemma ContributionComplete(nodes: seq<ToolbarNode>, parentId: Parent, chain: seq<string>,
                             titleMap: map<string, string>, strip: string -> string, i: nat)
    requires UniqueIds(nodes) && IsChain(nodes, chain, parentId) && Sibling(nodes, parentId, i)
    ensures forall k :: KeyOrigin(nodes, parentId, k) && BelowEq(nodes, k, nodes[i].id) ==>
              k in AllKeys(Contribution(nodes, parentId, chain, titleMap, strip, i))
    decreases NodeIds(nodes) - set x | x in chain, 0, |nodes| - i, 0
  {
    var node := nodes[i];
    var c := Contribution(nodes, parentId, chain, titleMap, strip, i);
    ChainExtend(nodes, chain, parentId, i);
    BuildComplete(nodes, Under(node.id), chain + [node.id], titleMap, strip);
    var children := BuildNodeStructure(nodes, Under(node.id), chain + [node.id], titleMap, strip);
    assert AllKeys(children) <= AllKeys(c) by {
      if PhpEmpty(node.title) {
        ReparentedKeys(children, parentId);
      } else {
        AllKeysSingle(TitledEntry(node, titleMap, strip, children));
      }
    }
    forall k | KeyOrigin(nodes, parentId, k) && BelowEq(nodes, k, node.id) ensures k in AllKeys(c) {
      OwnedHere(nodes, parentId, k, i);
      if k == node.id && !PhpEmpty(node.title) {
        AllKeysSingle(TitledEntry(node, titleMap, strip, children));
      }
    }
  }

  /** The ids `Reparented` keeps. */
  lemma ReparentedLevelKeys(c: seq<Entry>, p: Parent)
    ensures LevelKeys(Reparented(c, p)) == LevelKeys(c)
  {
    var r := Reparented(c, p);
    forall k | k in LevelKeys(c) ensures k in LevelKeys(r) {
      var j :| 0 <= j < |c| && c[j].key == k;
      assert r[j].key == k;
    }
  }

  /** What a title-less sibling's children contribute stays a key of the level to the end of the scan. */
  lemma {:induction false} ScanLifted(nodes: seq<ToolbarNode>, parentId: Parent, chain: seq<string>,
                                      titleMap: map<string, string>, strip: string -> string,
                                      i: nat, acc: seq<Entry>, j: nat)
    requires UniqueIds(nodes) && IsChain(nodes, chain, parentId) && i <= j
    requires LevelInv(nodes, parentId, titleMap, strip, acc)
    requires OwnedAll(nodes, parentId, acc, i)
    requires Sibling(nodes, parentId, j) && PhpEmpty(nodes[j].title)
    ensures IsChain(nodes, chain + [nodes[j].id], Under(nodes[j].id))
    ensures LevelKeys(BuildNodeStructure(nodes, Under(nodes[j].id), chain + [nodes[j].id], titleMap, strip)) <=
            LevelKeys(ScanNodes(nodes, parentId, chain, titleMap, strip, i, acc))
    decreases |nodes| - i
  {
    ChainExtend(nodes, chain, parentId, j);
    var c := Contribution(nodes, parentId, chain, titleMap, strip, i);
    ScanStep(nodes, parentId, chain, titleMap, strip, i, acc);
    if i < j {
      ScanLifted(nodes, parentId, chain, titleMap, strip, i + 1, acc + c, j);
    } else {
      var children := BuildNodeStructure(nodes, Under(nodes[j].id), chain + [nodes[j].id], titleMap, strip);
      assert c == Reparented(children, parentId);
      ReparentedLevelKeys(children, parentId);
      assert LevelKeys(c) <= LevelKeys(acc + c) by {
        forall k | k in LevelKeys(c) ensures k in LevelKeys(acc + c) {
          var l :| 0 <= l < |c| && c[l].key == k;
          assert (acc + c)[|acc| + l] == c[l];
        }
      }
    }
  }

  /**
   * The children of a title-less sibling are keys of the level itself: the
   * node drops out and its children take its place, with the level's parent.
   */
  lemma LiftedChildren(nodes: seq<ToolbarNode>, parentId: Parent, chain: seq<string>,
                       titleMap: map<string, string>, strip: string -> string, j: nat)
    requires UniqueIds(nodes) && IsChain(nodes, chain, parentId)
    requires Sibling(nodes, parentId, j) && PhpEmpty(nodes[j].title)
    ensures IsChain(nodes, chain + [nodes[j].id], Under(nodes[j].id))
    ensures LevelKeys(BuildNodeStructure(nodes, Under(nodes[j].id), chain + [nodes[j].id], titleMap, strip)) <=
            LevelKeys(BuildNodeStructure(nodes, parentId, chain, titleMap, strip))
  {
    ScanLifted(nodes, parentId, chain, titleMap, strip, 0, [], j);
  }

  /**
   * The structure `storeOriginalAdminBar` caches holds, at some depth,
   * exactly the listed titled nodes other than `menu-toggle` whose parent
   * walk reaches `false` without passing `menu-toggle`.
   */
  lemma BuildTreeKeys(nodes: seq<ToolbarNode>, titleMap: map<string, string>, strip: string -> string)
    requires UniqueIds(nodes)
    ensures forall k :: k in AllKeys(BuildTree(nodes, titleMap, strip)) <==> KeyOrigin(nodes, Root, k)
  {
    BuildComplete(nodes, Root, [], titleMap, strip);
  }
}
