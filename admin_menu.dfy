/**
 * The admin-menu engine: a snapshot of the two-level `$menu`/`$submenu`
 * arrays, the id-carrying listing the settings page shows, and the
 * in-place removal that hides entries for a role.
 */
module AdminMenu {
  import opened PhpArray

  /**
   * An entry of `$menu` or of a `$submenu` group. WordPress stores arrays
   * `[title, capability, slug, ...]`; any other value is a `Scalar`, and
   * the strings its offsets `[0]` and `[2]` read as are given with it.
   */
  datatype MenuItem = Item(title: string, slug: string) | Scalar(offset0: string, offset2: string)

  /** `$item[0]` */
  function Offset0(e: MenuItem): string {
    if e.Item? then e.title else e.offset0
  }

  /** `$item[2]` */
  function Offset2(e: MenuItem): string {
    if e.Item? then e.slug else e.offset2
  }

  /** What the listing keeps: an array whose slug is not `empty()`. */
  predicate Listable(e: MenuItem) {
    e.Item? && !PhpEmpty(e.slug)
  }

  /** `$menu`: position => entry. */
  type Menu = Arr<int, MenuItem>

  /** `$submenu`: raw parent slug => group of entries. */
  type Submenu = Arr<string, Menu>

  /** The id an entry is known by: `$prefix . sanitize_title($item[2])`. */
  function ItemId(prefix: string, slug: string -> string, e: MenuItem): string {
    prefix + slug(Offset2(e))
  }

  /** `$a[$key]` for a key that is present; the default is never read then. */
  function EntryAt(a: Menu, key: int): MenuItem {
    GetOr(a, key, Scalar("", ""))
  }

  // ----- sort($keys, SORT_NUMERIC) -----

  predicate Ascending(s: seq<int>) {
    forall i, j :: 0 <= i < j < |s| ==> s[i] <= s[j]
  }

  /** Places `k` into an ascending sequence. */
  function Insert(s: seq<int>, k: int): seq<int> {
    if |s| == 0 then [k]
    else if k <= s[0] then [k] + s
    else [s[0]] + Insert(s[1..], k)
  }

  lemma {:induction false} InsertSpec(s: seq<int>, k: int)
    requires Ascending(s)
    ensures Ascending(Insert(s, k))
    ensures multiset(Insert(s, k)) == multiset(s) + multiset{k}
  {
    if |s| > 0 && k > s[0] {
      var t := s[1..];
      assert s == [s[0]] + t;
      assert Ascending(t);
      InsertSpec(t, k);
      var rest := Insert(t, k);
      assert Insert(s, k) == [s[0]] + rest;
      assert multiset([s[0]] + rest) == multiset{s[0]} + multiset(rest);
      InsertedAbove(s, k, rest);
      LeadBelow(s[0], rest);
    } else if |s| > 0 {
      assert Insert(s, k) == [k] + s;
      assert forall i :: 0 <= i < |s| ==> k <= s[i] by {
        forall i | 0 <= i < |s| ensures k <= s[i] {
          if i > 0 { assert s[0] <= s[i]; }
        }
      }
      LeadBelow(k, s);
    }
  }

  /** After inserting a larger key into the tail, the head still bounds every element. */
  lemma InsertedAbove(s: seq<int>, k: int, rest: seq<int>)
    requires Ascending(s) && |s| > 0 && s[0] < k
    requires multiset(rest) == multiset(s[1..]) + multiset{k}
    ensures forall i :: 0 <= i < |rest| ==> s[0] <= rest[i]
  {
    forall i | 0 <= i < |rest| ensures s[0] <= rest[i] {
      assert rest[i] in multiset(rest);
      if rest[i] != k {
        assert rest[i] in multiset(s[1..]);
        var j :| 0 <= j < |s[1..]| && s[1..][j] == rest[i];
        assert s[j + 1] == rest[i];
      }
    }
  }

  lemma LeadBelow(h: int, rest: seq<int>)
    requires Ascending(rest) && forall i :: 0 <= i < |rest| ==> h <= rest[i]
    ensures Ascending([h] + rest)
  {
    var r := [h] + rest;
    forall i, j | 0 <= i < j < |r| ensures r[i] <= r[j] {
      assert r[j] == rest[j - 1];
      if i > 0 { assert r[i] == rest[i - 1]; }
    }
  }

  /** `sort($keys, SORT_NUMERIC)`: the same keys, in ascending order. */
  function SortNumeric(s: seq<int>): (r: seq<int>)
    ensures Ascending(r)
    ensures multiset(r) == multiset(s)
  {
    if |s| == 0 then []
    else
      assert s == s[..|s| - 1] + [s[|s| - 1]];
      var rest := SortNumeric(s[..|s| - 1]);
      InsertSpec(rest, s[|s| - 1]);
      Insert(rest, s[|s| - 1])
  }

  // ----- the listing -----

  /** The keys, in the given order, whose entries the listing keeps. */
  function ListedKeys(a: Menu, keys: seq<int>): (r: seq<int>)
    ensures |r| <= |keys|
  {
    if |keys| == 0 then []
    else
      var k := keys[|keys| - 1];
      ListedKeys(a, keys[..|keys| - 1]) + (if Listable(EntryAt(a, k)) then [k] else [])
  }

  lemma ListedKeysSnoc(a: Menu, keys: seq<int>, k: int)
    ensures ListedKeys(a, keys + [k]) == ListedKeys(a, keys) + (if Listable(EntryAt(a, k)) then [k] else [])
  {
    assert (keys + [k])[..|keys|] == keys;
  }

  /** The listed keys are exactly the given keys whose entries are kept. */
  lemma {:induction false} ListedKeysMembers(a: Menu, keys: seq<int>, k: int)
    ensures k in ListedKeys(a, keys) <==> k in keys && Listable(EntryAt(a, k))
  {
    if |keys| > 0 {
      var n := |keys| - 1;
      ListedKeysMembers(a, keys[..n], k);
      assert keys == keys[..n] + [keys[n]];
    }
  }

  /** Filtering keeps the order of the keys. */
  lemma {:induction false} ListedKeysAscending(a: Menu, keys: seq<int>)
    requires Ascending(keys)
    ensures Ascending(ListedKeys(a, keys))
  {
    if |keys| > 0 {
      var n := |keys| - 1;
      var p := keys[..n];
      assert Ascending(p);
      ListedKeysAscending(a, p);
      var lp := ListedKeys(a, p);
      var r := ListedKeys(a, keys);
      forall i, j | 0 <= i < j < |r| ensures r[i] <= r[j] {
        if j >= |lp| {
          assert r[i] == lp[i];
          ListedKeysMembers(a, p, lp[i]);
          var m :| 0 <= m < n && p[m] == lp[i];
          assert keys[m] <= keys[n];
        }
      }
    }
  }

  /** The keys the listing visits, in its order. */
  function ListingOrder(a: Menu): seq<int> {
    ListedKeys(a, SortNumeric(ArrayKeys(a)))
  }

  /**
   * The listing visits exactly the kept entries' keys, in ascending numeric
   * order, and never more keys than the array has.
   */
  lemma ListingOrderSpec(a: Menu)
    ensures Ascending(ListingOrder(a))
    ensures |ListingOrder(a)| <= |a|
    ensures forall k :: k in ListingOrder(a) <==> k in Keys(a) && Listable(EntryAt(a, k))
  {
    var sorted := SortNumeric(ArrayKeys(a));
    ListedKeysAscending(a, sorted);
    assert |sorted| == |multiset(sorted)| == |multiset(ArrayKeys(a))| == |a|;
    forall k ensures k in ListingOrder(a) <==> k in Keys(a) && Listable(EntryAt(a, k)) {
      ListedKeysMembers(a, sorted, k);
      assert k in sorted <==> k in multiset(ArrayKeys(a));
      if k in Keys(a) {
        var i :| 0 <= i < |a| && a[i].0 == k;
        assert ArrayKeys(a)[i] == k;
      }
      if k in ArrayKeys(a) {
        var i :| 0 <= i < |a| && ArrayKeys(a)[i] == k;
      }
    }
  }

  /** A row of `getSubmenuItems`. */
  datatype SubRow = SubRow(id: string, title: string)

  /** A row of `getMenuItems`. */
  datatype MenuRow = MenuRow(id: string, title: string, submenu: seq<SubRow>)

  function RowsFor(menu: Menu, submenu: Submenu, slug: string -> string, strip: string -> string, keys: seq<int>): seq<MenuRow> {
    seq(|keys|, i requires 0 <= i < |keys| => MenuRowOf(EntryAt(menu, keys[i]), submenu, slug, strip))
  }

  function SubRowsFor(group: Menu, parentId: string, slug: string -> string, strip: string -> string, keys: seq<int>): seq<SubRow> {
    seq(|keys|, i requires 0 <= i < |keys| => SubRowOf(EntryAt(group, keys[i]), parentId, slug, strip))
  }

  function SubRowOf(e: MenuItem, parentId: string, slug: string -> string, strip: string -> string): SubRow {
    SubRow(ItemId(parentId + "-", slug, e), strip(Offset0(e)))
  }

  /** What `getSubmenuItems` lists: row `i` is built from the `i`-th key of `ListingOrder`. */
  function SubmenuRows(group: Menu, parentId: string, slug: string -> string, strip: string -> string): seq<SubRow> {
    SubRowsFor(group, parentId, slug, strip, ListingOrder(group))
  }

  function MenuRowOf(e: MenuItem, submenu: Submenu, slug: string -> string, strip: string -> string): MenuRow {
    var id := ItemId("", slug, e);
    MenuRow(id, Offset0(e),
            if HasKey(submenu, Offset2(e)) then SubmenuRows(GetOr(submenu, Offset2(e), []), id, slug, strip) else [])
  }

  /** What `getMenuItems` lists: row `i` is built from the `i`-th key of `ListingOrder`. */
  function MenuRows(menu: Menu, submenu: Submenu, slug: string -> string, strip: string -> string): seq<MenuRow> {
    RowsFor(menu, submenu, slug, strip, ListingOrder(menu))
  }

  /** An empty snapshot lists nothing; a listing never has more rows than entries. */
  lemma ListingBounds(menu: Menu, submenu: Submenu, slug: string -> string, strip: string -> string)
    ensures |MenuRows(menu, submenu, slug, strip)| <= |menu|
    ensures menu == [] ==> MenuRows(menu, submenu, slug, strip) == []
    ensures forall i :: 0 <= i < |MenuRows(menu, submenu, slug, strip)| ==>
              |MenuRows(menu, submenu, slug, strip)[i].submenu| <= |GetOr(submenu, Offset2(EntryAt(menu, ListingOrder(menu)[i])), [])|
  {
    ListingOrderSpec(menu);
    var rows := MenuRows(menu, submenu, slug, strip);
    forall i | 0 <= i < |rows|
      ensures |rows[i].submenu| <= |GetOr(submenu, Offset2(EntryAt(menu, ListingOrder(menu)[i])), [])|
    {
      ListingOrderSpec(GetOr(submenu, Offset2(EntryAt(menu, ListingOrder(menu)[i])), []));
    }
  }

  /** Every listed row is a kept entry of the array, with its id and title. */
  lemma RowsComeFromEntries(menu: Menu, submenu: Submenu, slug: string -> string, strip: string -> string, i: nat)
    requires i < |MenuRows(menu, submenu, slug, strip)|
    ensures exists j :: 0 <= j < |menu| && Listable(menu[j].1) &&
              MenuRows(menu, submenu, slug, strip)[i].id == slug(menu[j].1.slug) &&
              MenuRows(menu, submenu, slug, strip)[i].title == menu[j].1.title &&
              MenuRows(menu, submenu, slug, strip)[i].submenu ==
                (if HasKey(submenu, menu[j].1.slug)
                 then SubmenuRows(GetOr(submenu, menu[j].1.slug, []), slug(menu[j].1.slug), slug, strip)
                 else [])
  {
    ListingOrderSpec(menu);
    var k := ListingOrder(menu)[i];
    assert k in ListingOrder(menu);
    var e := EntryAt(menu, k);
    var j :| 0 <= j < |menu| && menu[j] == (k, e);
    assert Listable(menu[j].1);
  }

  /** Every listed submenu row is a kept entry of its group, with the composite id and the stripped title. */
  lemma SubRowsComeFromEntries(group: Menu, parentId: string, slug: string -> string, strip: string -> string, i: nat)
    requires i < |SubmenuRows(group, parentId, slug, strip)|
    ensures exists j :: 0 <= j < |group| && Listable(group[j].1) &&
              SubmenuRows(group, parentId, slug, strip)[i].id == parentId + "-" + slug(group[j].1.slug) &&
              SubmenuRows(group, parentId, slug, strip)[i].title == strip(group[j].1.title)
  {
    ListingOrderSpec(group);
    var k := ListingOrder(group)[i];
    assert k in ListingOrder(group);
    var e := EntryAt(group, k);
    var j :| 0 <= j < |group| && group[j] == (k, e);
    assert Listable(group[j].1);
  }

  // ----- removal -----

  /** The position of the first entry, from `start` on, whose id is `menuId`. */
  function FirstMatchFrom(items: Menu, menuId: string, prefix: string, slug: string -> string, start: nat): (r: Option<nat>)
    requires start <= |items|
    ensures r.Some? ==> start <= r.value < |items| && ItemId(prefix, slug, items[r.value].1) == menuId &&
                        forall j :: start <= j < r.value ==> ItemId(prefix, slug, items[j].1) != menuId
    ensures r.None? ==> forall j :: start <= j < |items| ==> ItemId(prefix, slug, items[j].1) != menuId
    decreases |items| - start
  {
    if start == |items| then None
    else if ItemId(prefix, slug, items[start].1) == menuId then Some(start)
    else FirstMatchFrom(items, menuId, prefix, slug, start + 1)
  }

  function FirstMatch(items: Menu, menuId: string, prefix: string, slug: string -> string): Option<nat> {
    FirstMatchFrom(items, menuId, prefix, slug, 0)
  }

  /** The entries left once the first entry whose id is `menuId` is unset. */
  function WithoutFirst(items: Menu, menuId: string, prefix: string, slug: string -> string): Menu {
    match FirstMatch(items, menuId, prefix, slug)
    case None => items
    case Some(i) => RemoveAt(items, i)
  }

  /**
   * At most one entry goes: the first whose id is `menuId`; with none the
   * array is unchanged. The others keep their keys, values and order.
   */
  lemma WithoutFirstSpec(items: Menu, menuId: string, prefix: string, slug: string -> string)
    requires DistinctKeys(items)
    ensures var r := WithoutFirst(items, menuId, prefix, slug);
            DistinctKeys(r) &&
            (|r| == |items| || |r| == |items| - 1) &&
            (|r| == |items| <==> forall j :: 0 <= j < |items| ==> ItemId(prefix, slug, items[j].1) != menuId) &&
            (|r| == |items| ==> r == items) &&
            (forall x :: x in r ==> x in items)
    ensures var r := WithoutFirst(items, menuId, prefix, slug);
            |r| < |items| ==>
              exists i :: 0 <= i < |items| && ItemId(prefix, slug, items[i].1) == menuId &&
                (forall j :: 0 <= j < i ==> ItemId(prefix, slug, items[j].1) != menuId) &&
                r == items[..i] + items[i + 1..] && Keys(r) == Keys(items) - {items[i].0}
  {
    match FirstMatch(items, menuId, prefix, slug)
    case None =>
    case Some(i) =>
      RemoveAtDistinct(items, i);
      var r := RemoveAt(items, i);
      forall x | x in r ensures x in items {
        var m :| 0 <= m < |r| && r[m] == x;
        if m < i { assert items[m] == x; } else { assert items[m + 1] == x; }
      }
  }

  /** Each group with its first entry whose composite id is `menuId` unset; the group keys all stay. */
  function WithoutFirstInGroups(groups: Submenu, menuId: string, slug: string -> string): (r: Submenu)
    ensures |r| == |groups|
    ensures forall i :: 0 <= i < |r| ==> r[i].0 == groups[i].0
    ensures ArrayKeys(r) == ArrayKeys(groups)
  {
    seq(|groups|, i requires 0 <= i < |groups| =>
        (groups[i].0, WithoutFirst(groups[i].1, menuId, slug(groups[i].0) + "-", slug)))
  }

  /** `$menu` and `$submenu`, each present only when it is an array. */
  datatype MenuState = MenuState(menu: Option<Menu>, submenu: Option<Submenu>)

  /** The effect of `removeMenuItem($menuId)`. */
  function AfterRemoval(st: MenuState, menuId: string, slug: string -> string): MenuState {
    MenuState(
      if st.menu.Some? then Some(WithoutFirst(st.menu.value, menuId, "", slug)) else None,
      if st.submenu.Some? then Some(WithoutFirstInGroups(st.submenu.value, menuId, slug)) else None)
  }

  /** The effect of `removeMenuItem` for each id in turn. */
  function AfterRemovals(st: MenuState, ids: seq<string>, slug: string -> string): MenuState {
    if |ids| == 0 then st
    else AfterRemoval(AfterRemovals(st, ids[..|ids| - 1], slug), ids[|ids| - 1], slug)
  }

  /** The ids `hideMenuItems` passes on: the keys whose value is truthy, in order. */
  function HiddenIds(settings: Settings): (ids: seq<string>)
    ensures forall x :: x in ids <==> (x, true) in settings
    ensures |ids| <= |settings|
  {
    if |settings| == 0 then []
    else
      var n := |settings| - 1;
      assert settings == settings[..n] + [settings[n]];
      HiddenIds(settings[..n]) + (if settings[n].1 then [settings[n].0] else [])
  }

  /** Every id listed for a submenu entry of a group removes an entry of that group. */
  lemma ListedSubIdRemoves(group: Menu, parent: string, slug: string -> string, strip: string -> string, i: nat)
    requires i < |SubmenuRows(group, slug(parent), slug, strip)|
    ensures FirstMatch(group, SubmenuRows(group, slug(parent), slug, strip)[i].id, slug(parent) + "-", slug).Some?
  {
    ListingOrderSpec(group);
    var k := ListingOrder(group)[i];
    assert k in ListingOrder(group);
    var e := EntryAt(group, k);
    var j :| 0 <= j < |group| && group[j] == (k, e);
    assert ItemId(slug(parent) + "-", slug, group[j].1) == SubmenuRows(group, slug(parent), slug, strip)[i].id;
  }

  /** Every id listed for a top-level entry removes an entry of the menu. */
  lemma ListedIdRemoves(menu: Menu, submenu: Submenu, slug: string -> string, strip: string -> string, i: nat)
    requires i < |MenuRows(menu, submenu, slug, strip)|
    ensures FirstMatch(menu, MenuRows(menu, submenu, slug, strip)[i].id, "", slug).Some?
  {
    ListingOrderSpec(menu);
    var k := ListingOrder(menu)[i];
    assert k in ListingOrder(menu);
    var e := EntryAt(menu, k);
    var j :| 0 <= j < |menu| && menu[j] == (k, e);
    assert ItemId("", slug, menu[j].1) == MenuRows(menu, submenu, slug, strip)[i].id;
  }

  /**
   * The listing and the removal agree on composite ids: a submenu row listed
   * under top-level row `i` removes an entry of the group stored under that
   * entry's raw slug.
   */
  lemma ListedSubmenuRowRemoves(menu: Menu, submenu: Submenu, slug: string -> string, strip: string -> string,
                                i: nat, j: nat)
    requires i < |MenuRows(menu, submenu, slug, strip)|
    requires j < |MenuRows(menu, submenu, slug, strip)[i].submenu|
    ensures HasKey(submenu, Offset2(EntryAt(menu, ListingOrder(menu)[i])))
    ensures FirstMatch(GetOr(submenu, Offset2(EntryAt(menu, ListingOrder(menu)[i])), []),
                       MenuRows(menu, submenu, slug, strip)[i].submenu[j].id,
                       slug(Offset2(EntryAt(menu, ListingOrder(menu)[i]))) + "-", slug).Some?
  {
    var e := EntryAt(menu, ListingOrder(menu)[i]);
    var parent := Offset2(e);
    var row := MenuRows(menu, submenu, slug, strip)[i];
    assert row == MenuRowOf(e, submenu, slug, strip);
    assert ItemId("", slug, e) == slug(parent);
    var group := GetOr(submenu, parent, []);
    assert row.submenu == if HasKey(submenu, parent) then SubmenuRows(group, slug(parent), slug, strip) else [];
    ListedSubIdRemoves(group, parent, slug, strip, j);
  }

  /** Removing only ever drops entries and never a group key. */
  lemma {:induction false} RemovalsOnlyDrop(st: MenuState, ids: seq<string>, slug: string -> string)
    requires st.menu.Some? ==> DistinctKeys(st.menu.value)
    ensures var r := AfterRemovals(st, ids, slug);
            r.menu.Some? == st.menu.Some? && r.submenu.Some? == st.submenu.Some? &&
            (r.menu.Some? ==> DistinctKeys(r.menu.value) &&
                              |r.menu.value| + |ids| >= |st.menu.value| &&
                              forall x :: x in r.menu.value ==> x in st.menu.value) &&
            (r.submenu.Some? ==> ArrayKeys(r.submenu.value) == ArrayKeys(st.submenu.value))
  {
    if |ids| > 0 {
      var n := |ids| - 1;
      RemovalsOnlyDrop(st, ids[..n], slug);
      var mid := AfterRemovals(st, ids[..n], slug);
      if mid.menu.Some? {
        WithoutFirstSpec(mid.menu.value, ids[n], "", slug);
      }
    }
  }

  /** The host's live `$menu` and `$submenu` globals. */
  class MenuGlobals {
    var menu: Option<Menu>
    var submenu: Option<Submenu>

    /** As PHP arrays, neither repeats a key, and neither does any submenu group. */
    ghost predicate Valid()
      reads this
    {
      && (menu.Some? ==> DistinctKeys(menu.value))
      && (submenu.Some? ==> DistinctKeys(submenu.value))
      && (submenu.Some? ==> forall i :: 0 <= i < |submenu.value| ==> DistinctKeys(submenu.value[i].1))
    }

    function State(): MenuState
      reads this
    {
      MenuState(menu, submenu)
    }

    constructor (menu: Option<Menu>, submenu: Option<Submenu>)
      requires menu.Some? ==> DistinctKeys(menu.value)
      requires submenu.Some? ==> DistinctKeys(submenu.value)
      requires submenu.Some? ==> forall i :: 0 <= i < |submenu.value| ==> DistinctKeys(submenu.value[i].1)
      ensures Valid() && this.menu == menu && this.submenu == submenu
    {
      this.menu := menu;
      this.submenu := submenu;
    }

    /** `removeMenuItem($menuId)`, with `sanitize_title` passed in as `slug`. */
    method RemoveMenuItem(menuId: string, slug: string -> string)
      requires Valid()
      modifies this
      ensures Valid()
      ensures State() == AfterRemoval(old(State()), menuId, slug)
    {
      if menu.Some? {
        var items := RemoveFirst(menu.value, menuId, "", slug);
        WithoutFirstSpec(menu.value, menuId, "", slug);
        menu := Some(items);
      }
      if submenu.Some? {
        var groups := RemoveFirstInGroups(submenu.value, menuId, slug);
        assert DistinctKeys(groups) by {
          forall i, j | 0 <= i < j < |groups| ensures groups[i].0 != groups[j].0 {
            assert groups[i].0 == submenu.value[i].0 && groups[j].0 == submenu.value[j].0;
          }
        }
        submenu := Some(groups);
      }
    }
  }

  /** The by-reference `foreach` over the `$submenu` groups. */
  method RemoveFirstInGroups(groups: Submenu, menuId: string, slug: string -> string) returns (r: Submenu)
    ensures r == WithoutFirstInGroups(groups, menuId, slug)
  {
    r := groups;
    var g := 0;
    while g < |r|
      invariant 0 <= g <= |r| && |r| == |groups|
      invariant forall i :: 0 <= i < g ==>
                  r[i] == (groups[i].0, WithoutFirst(groups[i].1, menuId, slug(groups[i].0) + "-", slug))
      invariant forall i :: g <= i < |r| ==> r[i] == groups[i]
    {
      var kept := RemoveFirst(r[g].1, menuId, slug(r[g].0) + "-", slug);
      r := r[g := (r[g].0, kept)];
      g := g + 1;
    }
  }

  /** The `foreach ... if (...) { unset(...); break; }` scan over one array. */
  method RemoveFirst(items: Menu, menuId: string, prefix: string, slug: string -> string) returns (r: Menu)
    ensures r == WithoutFirst(items, menuId, prefix, slug)
  {
    var i := 0;
    while i < |items|
      invariant 0 <= i <= |items|
      invariant FirstMatchFrom(items, menuId, prefix, slug, i) == FirstMatch(items, menuId, prefix, slug)
    {
      if ItemId(prefix, slug, items[i].1) == menuId {
        return RemoveAt(items, i);
      }
      i := i + 1;
    }
    return items;
  }

  // ----- the settings object -----

  class AdminMenuSettings {
    var originalMenu: Menu
    var originalSubmenu: Submenu
    /** The typed properties have no default: they are unset until stored. */
    var stored: bool

    constructor ()
      ensures !stored && originalMenu == [] && originalSubmenu == []
    {
      originalMenu := [];
      originalSubmenu := [];
      stored := false;
    }

    /** `storeOriginalMenu`: a copy of each global that is an array, keys and order kept. */
    method StoreOriginalMenu(globals: MenuGlobals)
      requires globals.Valid()
      modifies this
      ensures stored
      ensures originalMenu == if globals.menu.Some? then globals.menu.value else []
      ensures originalSubmenu == if globals.submenu.Some? then globals.submenu.value else []
    {
      originalMenu := if globals.menu.Some? then globals.menu.value else [];
      originalSubmenu := [];
      if globals.submenu.Some? {
        var source := globals.submenu.value;
        var i := 0;
        while i < |source|
          invariant 0 <= i <= |source|
          invariant originalSubmenu == source[..i]
          invariant originalMenu == if globals.menu.Some? then globals.menu.value else []
        {
          assert source[i].0 !in Keys(source[..i]) by {
            forall j | 0 <= j < i ensures source[..i][j].0 != source[i].0 {
              assert source[..i][j] == source[j];
            }
          }
          PutFresh(originalSubmenu, source[i].0, source[i].1);
          originalSubmenu := Put(originalSubmenu, source[i].0, source[i].1);
          assert source[..i + 1] == source[..i] + [source[i]];
          i := i + 1;
        }
        assert source[..|source|] == source;
      }
      stored := true;
    }

    /** `getMenuItems`, with `sanitize_title` and `strip_tags` passed in. */
    method GetMenuItems(slug: string -> string, strip: string -> string) returns (items: seq<MenuRow>)
      ensures items == MenuRows(originalMenu, originalSubmenu, slug, strip)
    {
      var menu, submenu := originalMenu, originalSubmenu;
      items := [];
      if |menu| == 0 {
        assert ArrayKeys(menu) == [];
        return;
      }
      var menuKeys := SortNumeric(ArrayKeys(menu));
      var j := 0;
      while j < |menuKeys|
        invariant 0 <= j <= |menuKeys|
        invariant items == RowsFor(menu, submenu, slug, strip, ListedKeys(menu, menuKeys[..j]))
      {
        var key := menuKeys[j];
        var menuItem := EntryAt(menu, key);
        MenuRowsStep(menu, submenu, slug, strip, menuKeys, j);
        if !Listable(menuItem) {
          j := j + 1;
          continue;
        }
        var menuId := slug(menuItem.slug);
        var sub: seq<SubRow> := [];
        if HasKey(submenu, menuItem.slug) {
          sub := GetSubmenuItems(GetOr(submenu, menuItem.slug, []), menuId, slug, strip);
        }
        MenuRowOfItem(menuItem, submenu, slug, strip);
        items := items + [MenuRow(menuId, menuItem.title, sub)];
        j := j + 1;
      }
      assert menuKeys[..|menuKeys|] == menuKeys;
    }

    /** `getSubmenuItems($submenuItems, $parentId)`. */
    method GetSubmenuItems(group: Menu, parentId: string, slug: string -> string, strip: string -> string)
      returns (items: seq<SubRow>)
      ensures items == SubmenuRows(group, parentId, slug, strip)
    {
      items := [];
      var submenuKeys := SortNumeric(ArrayKeys(group));
      var j := 0;
      while j < |submenuKeys|
        invariant 0 <= j <= |submenuKeys|
        invariant items == SubRowsFor(group, parentId, slug, strip, ListedKeys(group, submenuKeys[..j]))
      {
        var key := submenuKeys[j];
        var submenuItem := EntryAt(group, key);
        SubRowsStep(group, parentId, slug, strip, submenuKeys, j);
        if !Listable(submenuItem) {
          j := j + 1;
          continue;
        }
        items := items + [SubRow(parentId + "-" + slug(submenuItem.slug), strip(submenuItem.title))];
        j := j + 1;
      }
      assert submenuKeys[..|submenuKeys|] == submenuKeys;
    }
  }

  /** One turn of the `getMenuItems` loop. */
  lemma MenuRowsStep(menu: Menu, submenu: Submenu, slug: string -> string, strip: string -> string, keys: seq<int>, j: nat)
    requires j < |keys|
    ensures RowsFor(menu, submenu, slug, strip, ListedKeys(menu, keys[..j + 1])) ==
            RowsFor(menu, submenu, slug, strip, ListedKeys(menu, keys[..j])) +
            (if Listable(EntryAt(menu, keys[j])) then [MenuRowOf(EntryAt(menu, keys[j]), submenu, slug, strip)] else [])
  {
    assert keys[..j + 1] == keys[..j] + [keys[j]];
    ListedKeysSnoc(menu, keys[..j], keys[j]);
    var before := RowsFor(menu, submenu, slug, strip, ListedKeys(menu, keys[..j]));
    if !Listable(EntryAt(menu, keys[j])) {
      assert before + [] == before;
    }
  }

  /** One turn of the `getSubmenuItems` loop. */
  lemma SubRowsStep(group: Menu, parentId: string, slug: string -> string, strip: string -> string, keys: seq<int>, j: nat)
    requires j < |keys|
    ensures SubRowsFor(group, parentId, slug, strip, ListedKeys(group, keys[..j + 1])) ==
            SubRowsFor(group, parentId, slug, strip, ListedKeys(group, keys[..j])) +
            (if Listable(EntryAt(group, keys[j])) then [SubRowOf(EntryAt(group, keys[j]), parentId, slug, strip)] else [])
  {
    assert keys[..j + 1] == keys[..j] + [keys[j]];
    ListedKeysSnoc(group, keys[..j], keys[j]);
    var before := SubRowsFor(group, parentId, slug, strip, ListedKeys(group, keys[..j]));
    if !Listable(EntryAt(group, keys[j])) {
      assert before + [] == before;
    }
  }

  lemma MenuRowOfItem(e: MenuItem, submenu: Submenu, slug: string -> string, strip: string -> string)
    requires e.Item?
    ensures MenuRowOf(e, submenu, slug, strip) ==
            MenuRow(slug(e.slug), e.title,
                    if HasKey(submenu, e.slug) then SubmenuRows(GetOr(submenu, e.slug, []), slug(e.slug), slug, strip) else [])
  {
    assert ItemId("", slug, e) == slug(e.slug);
  }

  // ----- hideMenuItems -----

  /**
   * `hideMenuItems`, with the current user's roles and the option store
   * passed in: for the first role's stored map, every truthy key is
   * removed in turn.
   */
  method HideMenuItems(globals: MenuGlobals, roles: seq<string>, options: map<string, Settings>,
                       slug: string -> string)
    requires globals.Valid()
    modifies globals
    ensures globals.Valid()
    ensures |roles| == 0 ==> globals.State() == old(globals.State())
    ensures |roles| > 0 ==>
              globals.State() == AfterRemovals(old(globals.State()),
                                               HiddenIds(GetOption(options, "sa_menu_settings_" + roles[0], [])), slug)
  {
    if |roles| == 0 {
      return;
    }
    var role := roles[0];
    var settings := GetOption(options, "sa_menu_settings_" + role, []);
    if |settings| == 0 {
      return;
    }
    RemoveHidden(globals, settings, slug);
  }

  /** The `foreach ($settings as $menuId => $hidden)` loop of `hideMenuItems`. */
  method RemoveHidden(globals: MenuGlobals, settings: Settings, slug: string -> string)
    requires globals.Valid()
    modifies globals
    ensures globals.Valid()
    ensures globals.State() == AfterRemovals(old(globals.State()), HiddenIds(settings), slug)
  {
    ghost var start := globals.State();
    var i := 0;
    while i < |settings|
      invariant 0 <= i <= |settings|
      invariant globals.Valid()
      invariant globals.State() == AfterRemovals(start, HiddenIds(settings[..i]), slug)
    {
      HiddenIdsSnoc(settings, i);
      if settings[i].1 {
        globals.RemoveMenuItem(settings[i].0, slug);
        AfterRemovalsSnoc(start, HiddenIds(settings[..i]), settings[i].0, slug);
      } else {
        assert HiddenIds(settings[..i]) + [] == HiddenIds(settings[..i]);
      }
      i := i + 1;
    }
    assert settings[..|settings|] == settings;
  }

  lemma HiddenIdsSnoc(settings: Settings, i: nat)
    requires i < |settings|
    ensures HiddenIds(settings[..i + 1]) == HiddenIds(settings[..i]) + (if settings[i].1 then [settings[i].0] else [])
  {
    assert settings[..i + 1][..i] == settings[..i];
  }

  lemma AfterRemovalsSnoc(st: MenuState, ids: seq<string>, id: string, slug: string -> string)
    ensures AfterRemovals(st, ids + [id], slug) == AfterRemoval(AfterRemovals(st, ids, slug), id, slug)
  {
    assert (ids + [id])[..|ids|] == ids;
  }
}
