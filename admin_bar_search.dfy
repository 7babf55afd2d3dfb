/**
 * Searching the cached toolbar structure (`findNodeInStructure`) and the set
 * of ids the prune walk (`hideNodeAndChildren` over every top-level key)
 * removes, characterised as the excluded keys with no excluded ancestor.
 */
module AdminBarSearch {
  import opened PhpArray
  import opened AdminBarTree

  /** `$structure[$nodeId]` at one level: the record stored under the key, if any. */
  function LevelLookup(s: seq<Entry>, k: string): (r: Option<Record>)
    ensures r.Some? <==> k in LevelKeys(s)
    ensures r.Some? ==> exists i :: 0 <= i < |s| && s[i] == Entry(k, r.value)
  {
    if |s| == 0 then None
    else if s[0].key == k then (assert s[0] == Entry(k, s[0].node); Some(s[0].node))
    else
      assert s == [s[0]] + s[1..];
      LevelKeysCons(s[0], s[1..]);
      var r := LevelLookup(s[1..], k);
      assert r.Some? ==> exists i :: 0 <= i < |s| && s[i] == Entry(k, r.value) by {
        if r.Some? {
          var i :| 0 <= i < |s[1..]| && s[1..][i] == Entry(k, r.value);
          assert s[i + 1] == Entry(k, r.value);
        }
      }
      r
  }

  /** Record `r` is stored under key `k` at some depth of `s`. */
  ghost predicate Occurs(s: seq<Entry>, k: string, r: Record)
    decreases s
  {
    exists i :: 0 <= i < |s| && ((s[i].key == k && s[i].node == r) || Occurs(s[i].node.children, k, r))
  }

  /**
   * `findNodeInStructure($nodeId, $structure)`: a key of the current level
   * wins; otherwise the children of each entry are searched in order.
   */
  function FindNodeInStructure(nodeId: string, s: seq<Entry>): (r: Option<Record>)
    ensures r.Some? <==> nodeId in AllKeys(s)
    ensures r.Some? ==> Occurs(s, nodeId, r.value)
    ensures nodeId in LevelKeys(s) ==> r == LevelLookup(s, nodeId)
    decreases s, 1
  {
    var here := LevelLookup(s, nodeId);
    if here.Some? then
      LevelKeysInAll(s);
      assert Occurs(s, nodeId, here.value);
      here
    else
      KeysBelowLevel(s, nodeId);
      FindInChildren(nodeId, s, 0)
  }

  /** A key that is not at the top level of `s` is a key of some entry's children. */
  lemma KeysBelowLevel(s: seq<Entry>, k: string)
    requires k !in LevelKeys(s)
    ensures k in AllKeys(s) <==> exists j :: 0 <= j < |s| && k in AllKeys(s[j].node.children)
  {
    if k in AllKeys(s) {
      AllKeysMember(s, k);
      var i :| 0 <= i < |s| && k in Footprint(s[i]);
      assert s[i].key in LevelKeys(s);
    }
    if exists j :: 0 <= j < |s| && k in AllKeys(s[j].node.children) {
      var j :| 0 <= j < |s| && k in AllKeys(s[j].node.children);
      FootprintInAll(s, j);
    }
  }

  /** The `foreach` of `findNodeInStructure` from entry `i` on. */
  function FindInChildren(nodeId: string, s: seq<Entry>, i: nat): (r: Option<Record>)
    requires i <= |s|
    requires nodeId !in LevelKeys(s)
    ensures r.Some? <==> exists j :: i <= j < |s| && nodeId in AllKeys(s[j].node.children)
    ensures r.Some? ==> Occurs(s, nodeId, r.value)
    decreases s, 0, |s| - i
  {
    if i == |s| then None
    else if |s[i].node.children| != 0 then
      var found := FindNodeInStructure(nodeId, s[i].node.children);
      if found.Some? then found
      else FindInChildren(nodeId, s, i + 1)
    else
      assert AllKeys(s[i].node.children) == {};
      FindInChildren(nodeId, s, i + 1)
  }

  lemma {:induction false} OccursInAll(s: seq<Entry>, k: string, r: Record)
    requires Occurs(s, k, r)
    ensures k in AllKeys(s)
    decreases s
  {
    var i :| 0 <= i < |s| && ((s[i].key == k && s[i].node == r) || Occurs(s[i].node.children, k, r));
    FootprintInAll(s, i);
    if !(s[i].key == k && s[i].node == r) {
      OccursInAll(s[i].node.children, k, r);
    }
  }

  /** In a tree whose keys are unique, a key names one record. */
  lemma {:induction false} OccursUnique(s: seq<Entry>, k: string, r1: Record, r2: Record)
    requires Disjoint(s) && Occurs(s, k, r1) && Occurs(s, k, r2)
    ensures r1 == r2
    decreases s
  {
    var i :| 0 <= i < |s| && ((s[i].key == k && s[i].node == r1) || Occurs(s[i].node.children, k, r1));
    var j :| 0 <= j < |s| && ((s[j].key == k && s[j].node == r2) || Occurs(s[j].node.children, k, r2));
    var di := s[i].key == k && s[i].node == r1;
    var dj := s[j].key == k && s[j].node == r2;
    if !di { OccursInAll(s[i].node.children, k, r1); }
    if !dj { OccursInAll(s[j].node.children, k, r2); }
    assert k in Footprint(s[i]) && k in Footprint(s[j]);
    assert i == j;
    if !di && !dj {
      OccursUnique(s[i].node.children, k, r1, r2);
    } else if di != dj {
      assert false;
    }
  }

  /** With unique keys, the search finds the one record stored under the id. */
  lemma FindUnique(s: seq<Entry>, k: string, r: Record)
    requires Disjoint(s) && Occurs(s, k, r)
    ensures FindNodeInStructure(k, s) == Some(r)
  {
    OccursInAll(s, k, r);
    OccursUnique(s, k, FindNodeInStructure(k, s).value, r);
  }

  /** A child of a stored record is itself stored, under its own key. */
  lemma {:induction false} OccursChild(s: seq<Entry>, k: string, r: Record, j: nat)
    requires Occurs(s, k, r) && j < |r.children|
    ensures Occurs(s, r.children[j].key, r.children[j].node)
    decreases s
  {
    var i :| 0 <= i < |s| && ((s[i].key == k && s[i].node == r) || Occurs(s[i].node.children, k, r));
    if s[i].key == k && s[i].node == r {
      assert Occurs(s[i].node.children, r.children[j].key, r.children[j].node);
    } else {
      OccursChild(s[i].node.children, k, r, j);
    }
  }

  // ----- what the prune walk removes -----

  /**
   * The ids the walk removes below (and including) the entries of `s`: an
   * entry whose key is excluded is removed and not descended into; any
   * other entry is descended into.
   */
  ghost function Pruned(s: seq<Entry>, excluded: set<string>): set<string>
    decreases s
  {
    if |s| == 0 then {}
    else
      var e := s[|s| - 1];
      Pruned(s[..|s| - 1], excluded) + (if e.key in excluded then {e.key} else Pruned(e.node.children, excluded))
  }

  /** The keys strictly above `k` on its path from a top-level entry of `s`. */
  ghost function AncestorsIn(s: seq<Entry>, k: string): set<string>
    decreases s
  {
    if |s| == 0 then {}
    else
      var e := s[|s| - 1];
      AncestorsIn(s[..|s| - 1], k) +
        (if k in AllKeys(e.node.children) then {e.key} + AncestorsIn(e.node.children, k) else {})
  }

  /** Excluded keys of `s` none of whose ancestors is excluded. */
  ghost function Topmost(s: seq<Entry>, excluded: set<string>): set<string> {
    set k | k in AllKeys(s) && k in excluded && AncestorsIn(s, k) !! excluded
  }

  lemma {:induction false} AncestorsOutside(s: seq<Entry>, k: string)
    requires k !in AllKeys(s)
    ensures AncestorsIn(s, k) == {}
    decreases s
  {
    if |s| > 0 {
      AncestorsOutside(s[..|s| - 1], k);
    }
  }

  lemma AllKeysLast(s: seq<Entry>)
    requires |s| > 0
    ensures AllKeys(s) == AllKeys(s[..|s| - 1]) + Footprint(s[|s| - 1])
  {
  }

  lemma {:induction false} DisjointPrefix(s: seq<Entry>)
    requires Disjoint(s) && |s| > 0
    ensures Disjoint(s[..|s| - 1])
    ensures AllKeys(s[..|s| - 1]) !! Footprint(s[|s| - 1])
    ensures Disjoint(s[|s| - 1].node.children)
    ensures s[|s| - 1].key !in AllKeys(s[|s| - 1].node.children)
  {
    var n := |s| - 1;
    var p := s[..n];
    assert forall i :: 0 <= i < n ==> p[i] == s[i];
    forall k | k in AllKeys(p) ensures k !in Footprint(s[n]) {
      AllKeysMember(p, k);
      var i :| 0 <= i < |p| && k in Footprint(p[i]);
    }
  }

  /** The walk removes exactly the topmost excluded keys. */
  lemma {:induction false} PrunedIsTopmost(s: seq<Entry>, excluded: set<string>)
    requires Disjoint(s)
    ensures Pruned(s, excluded) == Topmost(s, excluded)
    decreases s
  {
    if |s| > 0 {
      var n := |s| - 1;
      DisjointPrefix(s);
      PrunedIsTopmost(s[..n], excluded);
      PrunedIsTopmost(s[n].node.children, excluded);
      TopmostSplit(s, excluded);
    }
  }

  /** `Topmost` of a level splits like `Pruned`: the earlier entries, then the last one. */
  lemma TopmostSplit(s: seq<Entry>, excluded: set<string>)
    requires Disjoint(s) && |s| > 0
    ensures var e := s[|s| - 1];
            Topmost(s, excluded) ==
              Topmost(s[..|s| - 1], excluded) +
              (if e.key in excluded then {e.key} else Topmost(e.node.children, excluded))
  {
    var n := |s| - 1;
    var p := s[..n];
    var e := s[n];
    var rhs := Topmost(p, excluded) + (if e.key in excluded then {e.key} else Topmost(e.node.children, excluded));
    DisjointPrefix(s);
    AllKeysLast(s);
    forall k | k in AllKeys(s) ensures k in Topmost(s, excluded) <==> k in rhs {
      if k in AllKeys(p) {
        AncestorsOutside(e.node.children, k);
        assert AncestorsIn(s, k) == AncestorsIn(p, k);
      } else if k == e.key {
        AncestorsOutside(p, k);
        AncestorsOutside(e.node.children, k);
        assert AncestorsIn(s, k) == {};
      } else {
        AncestorsOutside(p, k);
        assert AncestorsIn(s, k) == {e.key} + AncestorsIn(e.node.children, k);
      }
    }
    assert Topmost(s, excluded) <= AllKeys(s);
    assert rhs <= AllKeys(s);
  }

  lemma {:induction false} PrunedInAll(s: seq<Entry>, excluded: set<string>)
    ensures Pruned(s, excluded) <= AllKeys(s)
    decreases s
  {
    if |s| > 0 {
      PrunedInAll(s[..|s| - 1], excluded);
      PrunedInAll(s[|s| - 1].node.children, excluded);
    }
  }

  /** Only excluded ids are removed, and never one lying below another removed id. */
  lemma PrunedIsAntichain(s: seq<Entry>, excluded: set<string>, k: string)
    requires Disjoint(s) && k in Pruned(s, excluded)
    ensures k in excluded && k in AllKeys(s)
    ensures forall a :: a in AncestorsIn(s, k) ==> a !in Pruned(s, excluded)
  {
    PrunedIsTopmost(s, excluded);
  }

  /** With nothing excluded nothing is removed; excluding every key removes the top level. */
  lemma {:induction false} PrunedExtremes(s: seq<Entry>)
    ensures Pruned(s, {}) == {}
    ensures Pruned(s, AllKeys(s)) == LevelKeys(s)
    decreases s
  {
    if |s| > 0 {
      var n := |s| - 1;
      PrunedExtremes(s[..n]);
      PrunedExtremes(s[n].node.children);
      assert Pruned(s, AllKeys(s)) == Pruned(s[..n], AllKeys(s)) + {s[n].key};
      PrunedSuperset(s[..n], AllKeys(s[..n]), AllKeys(s));
      LevelKeysAppend(s[..n], s[n]);
      assert s[..n] + [s[n]] == s;
    }
  }

  /** Excluding, on top of `x`, ids that are not keys of the structure removes nothing more. */
  lemma {:induction false} PrunedSuperset(s: seq<Entry>, x: set<string>, y: set<string>)
    requires x <= y && (y - x) !! AllKeys(s)
    ensures Pruned(s, y) == Pruned(s, x)
    decreases s
  {
    if |s| > 0 {
      var n := |s| - 1;
      PrunedSuperset(s[..n], x, y);
      PrunedSuperset(s[n].node.children, x, y);
    }
  }

  /** What the walk started at one id removes: the id if excluded, else what lies below its record. */
  ghost function PrunedFrom(tree: seq<Entry>, nodeId: string, excluded: set<string>): set<string> {
    if nodeId in excluded then {nodeId}
    else match FindNodeInStructure(nodeId, tree)
      case None => {}
      case Some(r) => Pruned(r.children, excluded)
  }

  /** Started at a stored entry, the walk removes that entry's share of `Pruned`. */
  lemma PrunedFromEntry(tree: seq<Entry>, e: Entry, excluded: set<string>)
    requires Disjoint(tree) && Occurs(tree, e.key, e.node)
    ensures PrunedFrom(tree, e.key, excluded) ==
              if e.key in excluded then {e.key} else Pruned(e.node.children, excluded)
  {
    FindUnique(tree, e.key, e.node);
  }

  /** The number of records in a structure: what the prune walk's recursion uses up. */
  ghost function Size(s: seq<Entry>): nat
    decreases s
  {
    if |s| == 0 then 0 else Size(s[..|s| - 1]) + 1 + Size(s[|s| - 1].node.children)
  }

  lemma {:induction false} SizeChild(s: seq<Entry>, j: nat)
    requires j < |s|
    ensures Size(s[j].node.children) < Size(s)
    decreases s
  {
    var n := |s| - 1;
    if j < n {
      SizeChild(s[..n], j);
      assert s[..n][j] == s[j];
    }
  }

  /** The size of the subtree the walk at `nodeId` descends into. */
  ghost function FoundSize(tree: seq<Entry>, nodeId: string): nat {
    match FindNodeInStructure(nodeId, tree)
    case None => 0
    case Some(r) => Size(r.children) + 1
  }

  /** The walk at a child id descends into a strictly smaller subtree. */
  lemma FoundSizeChild(tree: seq<Entry>, nodeId: string, r: Record, j: nat)
    requires Disjoint(tree) && FindNodeInStructure(nodeId, tree) == Some(r) && j < |r.children|
    ensures FindNodeInStructure(r.children[j].key, tree) == Some(r.children[j].node)
    ensures FoundSize(tree, r.children[j].key) < FoundSize(tree, nodeId)
  {
    OccursChild(tree, nodeId, r, j);
    FindUnique(tree, r.children[j].key, r.children[j].node);
    SizeChild(r.children, j);
  }

  lemma PrunedSnoc(s: seq<Entry>, j: nat, excluded: set<string>)
    requires j < |s|
    ensures Pruned(s[..j + 1], excluded) ==
              Pruned(s[..j], excluded) +
              (if s[j].key in excluded then {s[j].key} else Pruned(s[j].node.children, excluded))
  {
    assert s[..j + 1][..j] == s[..j];
  }
}
