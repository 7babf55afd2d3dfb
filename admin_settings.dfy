/**
 * The decision fragments of the settings page: which option a tab reads
 * and writes, how posted checkbox keys become a stored settings map, and
 * which role and tab the page starts from.
 */
module AdminSettings {
  import opened PhpArray

  const MenuItemsTab := "menu-items"
  const AdminBarTab := "admin-bar"
  const AdminBarPrefix := "admin_bar_"

  /** `isset($_X['tab']) ? sanitize_text_field($_X['tab']) : 'menu-items'` */
  function TabOf(posted: Option<string>, sanitize: string -> string): string {
    if posted.Some? then sanitize(posted.value) else MenuItemsTab
  }

  /** The option a tab's settings live in for a role. */
  function OptionKey(tab: string, role: string): string {
    if tab == MenuItemsTab then "sa_menu_settings_" + role else "sa_adminbar_settings_" + role
  }

  /**
   * Only the `menu-items` tab uses the menu option, every other tab value
   * the toolbar option, and a missing tab means the menu option.
   */
  lemma OptionKeyByTab(tab: string, role: string, sanitize: string -> string)
    ensures OptionKey(tab, role) == "sa_menu_settings_" + role <==> tab == MenuItemsTab
    ensures OptionKey(tab, role) == "sa_adminbar_settings_" + role <==> tab != MenuItemsTab
    ensures OptionKey(TabOf(None, sanitize), role) == "sa_menu_settings_" + role
  {
    if tab != MenuItemsTab {
      assert OptionKey(tab, role)[3] == 'a' != ("sa_menu_settings_" + role)[3];
    } else {
      assert OptionKey(tab, role)[3] == 'm' != ("sa_adminbar_settings_" + role)[3];
    }
  }

  /** Different roles never share an option. */
  lemma OptionKeyPerRole(tab: string, role1: string, role2: string)
    requires role1 != role2
    ensures OptionKey(tab, role1) != OptionKey(tab, role2)
  {
    var p := if tab == MenuItemsTab then "sa_menu_settings_" else "sa_adminbar_settings_";
    assert OptionKey(tab, role1) == p + role1 && OptionKey(tab, role2) == p + role2;
    assert (p + role1)[|p|..] == role1 && (p + role2)[|p|..] == role2;
  }

  /**
   * The toolbar reads its role settings from `simpad_adminbar_settings_<role>`,
   * an option the form never writes for any tab.
   */
  lemma FormNeverWritesToolbarOption(tab: string, role: string)
    ensures OptionKey(tab, role) != "simpad_adminbar_settings_" + role
  {
    assert ("simpad_adminbar_settings_" + role)[1] == 'i';
    assert OptionKey(tab, role)[1] == 'a';
  }

  // ----- str_replace('admin_bar_', '', $key) -----

  /** Whether `pat` occurs in `s` at position `i`. */
  predicate OccursAt(s: string, pat: string, i: nat) {
    i + |pat| <= |s| && s[i..i + |pat|] == pat
  }

  /**
   * `str_replace($pat, '', $s)`: one left-to-right pass that deletes each
   * non-overlapping occurrence.
   */
  function RemoveAll(s: string, pat: string): string
    requires |pat| > 0
    decreases |s|
  {
    if OccursAt(s, pat, 0) then RemoveAll(s[|pat|..], pat)
    else if |s| == 0 then ""
    else [s[0]] + RemoveAll(s[1..], pat)
  }

  /** A string without an occurrence is unchanged. */
  lemma {:induction false} RemoveAllAbsent(s: string, pat: string)
    requires |pat| > 0
    requires forall i :: 0 <= i <= |s| ==> !OccursAt(s, pat, i)
    ensures RemoveAll(s, pat) == s
    decreases |s|
  {
    if |s| > 0 {
      assert !OccursAt(s, pat, 0);
      forall i | 0 <= i <= |s[1..]| ensures !OccursAt(s[1..], pat, i) {
        assert !OccursAt(s, pat, i + 1);
        if i + |pat| <= |s[1..]| {
          assert s[1..][i..i + |pat|] == s[i + 1..i + 1 + |pat|];
        }
      }
      RemoveAllAbsent(s[1..], pat);
      assert s == [s[0]] + s[1..];
    }
  }

  /** How many occurrences the pass deletes. */
  function RemovedCount(s: string, pat: string): nat
    requires |pat| > 0
    decreases |s|
  {
    if OccursAt(s, pat, 0) then 1 + RemovedCount(s[|pat|..], pat)
    else if |s| == 0 then 0
    else RemovedCount(s[1..], pat)
  }

  /** Deleting shortens by whole occurrences. */
  lemma {:induction false} RemoveAllLength(s: string, pat: string)
    requires |pat| > 0
    ensures |RemoveAll(s, pat)| + RemovedCount(s, pat) * |pat| == |s|
    decreases |s|
  {
    if OccursAt(s, pat, 0) {
      RemoveAllLength(s[|pat|..], pat);
      OneMore(RemovedCount(s[|pat|..], pat), |pat|);
    } else if |s| > 0 {
      RemoveAllLength(s[1..], pat);
    }
  }

  /** One more chunk of `p` characters, stated on its own to keep the solver cost of its callers low. */
  lemma OneMore(n: nat, p: nat)
    ensures (1 + n) * p == n * p + p
  {
  }

  /** A leading occurrence goes. */
  lemma RemoveAllLeading(s: string, pat: string)
    requires |pat| > 0
    ensures RemoveAll(pat + s, pat) == RemoveAll(s, pat)
  {
    assert (pat + s)[..|pat|] == pat;
    assert (pat + s)[|pat|..] == s;
  }

  /** An occurrence after a character that starts none goes too. */
  lemma RemoveAllInside(s: string, pat: string, c: char)
    requires |pat| > 0
    requires !OccursAt([c] + pat + s, pat, 0)
    ensures RemoveAll([c] + pat + s, pat) == [c] + RemoveAll(s, pat)
  {
    var t := [c] + pat + s;
    assert t[0] == c && t[1..] == pat + s;
    KeepFirst(t, pat);
    RemoveAllLeading(s, pat);
  }

  /** A first character that starts no occurrence is kept. */
  lemma KeepFirst(t: string, pat: string)
    requires |pat| > 0 && |t| > 0 && !OccursAt(t, pat, 0)
    ensures RemoveAll(t, pat) == [t[0]] + RemoveAll(t[1..], pat)
  {
  }

  /** The pass does not rescan what it produced: a removal can join two halves into a new occurrence. */
  lemma RemoveAllSinglePass()
    ensures RemoveAll("admin_badmin_bar_ar_", AdminBarPrefix) == AdminBarPrefix
  {
    var prefix, tail := "admin_b", "ar_";
    JoinedLiteral();
    PrefixStartsNone();
    TailKept();
    CharwiseUntil(prefix, AdminBarPrefix, tail);
    assert prefix + tail == AdminBarPrefix by {
      assert forall j :: 0 <= j < |AdminBarPrefix| ==> (prefix + tail)[j] == AdminBarPrefix[j];
    }
  }

  lemma JoinedLiteral()
    ensures "admin_badmin_bar_ar_" == "admin_b" + AdminBarPrefix + "ar_"
  {
    var s, u := "admin_badmin_bar_ar_", "admin_b" + AdminBarPrefix + "ar_";
    assert |s| == |u|;
    assert forall j :: 0 <= j < |s| ==> s[j] == u[j];
  }

  lemma PrefixStartsNone()
    ensures forall i :: 0 <= i < |"admin_b"| ==> !OccursAt("admin_b" + AdminBarPrefix + "ar_", AdminBarPrefix, i)
  {
    var s, pat := "admin_b" + AdminBarPrefix + "ar_", AdminBarPrefix;
    forall i | 0 <= i < 7 ensures !OccursAt(s, pat, i) {
      if i == 0 {
        assert s[8] != pat[8];
      } else {
        assert s[i] != pat[0];
        assert s[i..i + |pat|][0] == s[i];
      }
    }
  }

  lemma TailKept()
    ensures RemoveAll("ar_", AdminBarPrefix) == "ar_"
  {
    RemoveAllAbsent("ar_", AdminBarPrefix);
  }

  /** The characters of `prefix` are kept one by one until the occurrence that follows. */
  lemma {:induction false} CharwiseUntil(prefix: string, pat: string, tail: string)
    requires |pat| > 0
    requires forall i :: 0 <= i < |prefix| ==> !OccursAt(prefix + pat + tail, pat, i)
    ensures RemoveAll(prefix + pat + tail, pat) == prefix + RemoveAll(tail, pat)
    decreases |prefix|
  {
    var s := prefix + pat + tail;
    if |prefix| == 0 {
      assert s == pat + tail;
      assert s[..|pat|] == pat && s[|pat|..] == tail;
    } else {
      assert !OccursAt(s, pat, 0);
      var rest := prefix[1..];
      assert s[1..] == rest + pat + tail;
      forall i | 0 <= i < |rest| ensures !OccursAt(rest + pat + tail, pat, i) {
        assert !OccursAt(s, pat, i + 1);
        if i + |pat| <= |s[1..]| {
          assert (rest + pat + tail)[i..i + |pat|] == s[i + 1..i + 1 + |pat|];
        }
      }
      CharwiseUntil(rest, pat, tail);
      assert prefix == [prefix[0]] + rest;
    }
  }

  // ----- the posted settings -----

  /** The stored key of a posted checkbox key on a tab. */
  function CleanKey(tab: string, sanitize: string -> string, key: string): string {
    var k := sanitize(key);
    if tab == AdminBarTab then RemoveAll(k, AdminBarPrefix) else k
  }

  /**
   * On the toolbar tab a field named `admin_bar_<id>` is stored under `<id>`
   * when the id has no `admin_bar_` inside it; on any other tab the
   * sanitized name is stored as it is.
   */
  lemma CleanKeyStripsPrefix(tab: string, sanitize: string -> string, key: string, id: string)
    requires sanitize(key) == AdminBarPrefix + id
    requires forall i :: 0 <= i <= |id| ==> !OccursAt(id, AdminBarPrefix, i)
    ensures CleanKey(tab, sanitize, key) == (if tab == AdminBarTab then id else AdminBarPrefix + id)
  {
    RemoveAllLeading(id, AdminBarPrefix);
    RemoveAllAbsent(id, AdminBarPrefix);
  }

  /** The stored keys for the posted checkboxes. */
  function CleanKeys(tab: string, sanitize: string -> string, posted: Arr<string, string>): set<string> {
    set i | 0 <= i < |posted| :: CleanKey(tab, sanitize, posted[i].0)
  }

  /**
   * The settings loop of `handleFormSubmission`: `$settings[$cleanKey] = true`
   * for each posted key; `None` is a missing or non-array `sa_settings`.
   */
  method BuildSettings(posted: Option<Arr<string, string>>, tab: string, sanitize: string -> string)
    returns (settings: Settings)
    ensures posted.None? ==> settings == []
    ensures posted.Some? ==> Keys(settings) == CleanKeys(tab, sanitize, posted.value)
    ensures DistinctKeys(settings)
    ensures forall i :: 0 <= i < |settings| ==> settings[i].1
  {
    settings := [];
    if posted.None? {
      return;
    }
    var fields := posted.value;
    var i := 0;
    while i < |fields|
      invariant 0 <= i <= |fields|
      invariant Keys(settings) == CleanKeys(tab, sanitize, fields[..i])
      invariant DistinctKeys(settings)
      invariant forall j :: 0 <= j < |settings| ==> settings[j].1
    {
      var cleanKey := sanitize(fields[i].0);
      if tab == AdminBarTab {
        cleanKey := RemoveAll(cleanKey, AdminBarPrefix);
      }
      CleanKeysSnoc(tab, sanitize, fields, i);
      PutPreservesDistinct(settings, cleanKey, true);
      settings := Put(settings, cleanKey, true);
      i := i + 1;
    }
    assert fields[..|fields|] == fields;
  }

  lemma CleanKeysSnoc(tab: string, sanitize: string -> string, posted: Arr<string, string>, i: nat)
    requires i < |posted|
    ensures CleanKeys(tab, sanitize, posted[..i + 1]) ==
            CleanKeys(tab, sanitize, posted[..i]) + {CleanKey(tab, sanitize, posted[i].0)}
  {
    var a := posted[..i];
    var b := posted[..i + 1];
    forall k | k in CleanKeys(tab, sanitize, b)
      ensures k in CleanKeys(tab, sanitize, a) + {CleanKey(tab, sanitize, posted[i].0)}
    {
      var j :| 0 <= j < |b| && CleanKey(tab, sanitize, b[j].0) == k;
      if j < i { assert a[j] == b[j]; }
    }
    forall k | k in CleanKeys(tab, sanitize, a) ensures k in CleanKeys(tab, sanitize, b) {
      var j :| 0 <= j < |a| && CleanKey(tab, sanitize, a[j].0) == k;
      assert b[j] == a[j];
    }
    assert b[i] == posted[i];
  }

  /** Where `handleFormSubmission` ends. */
  datatype Submission =
    | Denied                                   // `wp_die('Insufficient permissions')`
    | Expired                                  // the nonce check fails and dies
    | RoleRequired                             // `wp_die('Role is required')`
    | Saved(key: string, settings: Settings)   // `update_option($key, $settings)`, then the redirect

  /**
   * `handleFormSubmission`, with the capability and nonce checks passed in
   * as their outcomes. Nothing is written unless the role is non-empty.
   */
  method HandleFormSubmission(canManage: bool, nonceValid: bool, selectedRole: string, tab: Option<string>,
                              posted: Option<Arr<string, string>>, sanitize: string -> string)
    returns (outcome: Submission)
    ensures !canManage ==> outcome == Denied
    ensures canManage && !nonceValid ==> outcome == Expired
    ensures canManage && nonceValid && PhpEmpty(sanitize(selectedRole)) ==> outcome == RoleRequired
    ensures outcome.Saved? <==> canManage && nonceValid && !PhpEmpty(sanitize(selectedRole))
    ensures outcome.Saved? ==>
              outcome.key == OptionKey(TabOf(tab, sanitize), sanitize(selectedRole)) &&
              DistinctKeys(outcome.settings) &&
              (forall i :: 0 <= i < |outcome.settings| ==> outcome.settings[i].1) &&
              (posted.None? ==> outcome.settings == []) &&
              (posted.Some? ==> Keys(outcome.settings) == CleanKeys(TabOf(tab, sanitize), sanitize, posted.value))
  {
    if !canManage {
      return Denied;
    }
    if !nonceValid {
      return Expired;
    }
    var role := sanitize(selectedRole);
    if PhpEmpty(role) {
      return RoleRequired;
    }
    var theTab := TabOf(tab, sanitize);
    var settings := BuildSettings(posted, theTab, sanitize);
    outcome := Saved(OptionKey(theTab, role), settings);
  }

  /** The reply of `ajaxLoadRoleSettings`. */
  datatype AjaxReply =
    | NonceFailed                  // `check_ajax_referer` dies
    | JsonError(message: string)   // `wp_send_json_error`
    | JsonSuccess(settings: Settings)

  /** `ajaxLoadRoleSettings`, with the nonce and capability checks and the option store passed in. */
  function AjaxLoadRoleSettings(nonceValid: bool, canManage: bool, role: string, tab: Option<string>,
                                options: map<string, Settings>, sanitize: string -> string): AjaxReply {
    if !nonceValid then NonceFailed
    else if !canManage then JsonError("Insufficient permissions")
    else JsonSuccess(GetOption(options, OptionKey(TabOf(tab, sanitize), sanitize(role)), []))
  }

  /** After a save, loading the same role and tab through the AJAX endpoint returns what was saved. */
  lemma SavedSettingsLoadBack(canManage: bool, role: string, tab: Option<string>,
                              posted: Option<Arr<string, string>>, sanitize: string -> string,
                              outcome: Submission, options: map<string, Settings>)
    requires outcome.Saved?
    requires outcome.key == OptionKey(TabOf(tab, sanitize), sanitize(role))
    ensures AjaxLoadRoleSettings(true, true, role, tab, options[outcome.key := outcome.settings], sanitize) ==
            JsonSuccess(outcome.settings)
  {
  }

  /** `getCurrentRole`: the user's first role, else `administrator`. */
  function GetCurrentRole(roles: seq<string>): string {
    if |roles| > 0 then roles[0] else "administrator"
  }

  /** What `renderSettingsPage` shows: a role, a tab and that pair's stored settings. */
  datatype PageState = PageState(role: string, tab: string, settings: Settings)

  /**
   * `renderSettingsPage` up to the template, given the capability check,
   * the request and the user's roles; `None` is the early return.
   */
  function RenderSettingsPage(canManage: bool, postedRole: Option<string>, getTab: Option<string>, roles: seq<string>,
                              options: map<string, Settings>, sanitize: string -> string): Option<PageState> {
    if !canManage then None
    else
      var role := if postedRole.Some? then sanitize(postedRole.value) else GetCurrentRole(roles);
      var tab := TabOf(getTab, sanitize);
      Some(PageState(role, tab, GetOption(options, OptionKey(tab, role), [])))
  }

  /**
   * A plain visit opens the menu tab on the user's first role (or
   * `administrator`), showing the very option `hideMenuItems` applies
   * to that role.
   */
  lemma PlainVisit(roles: seq<string>, options: map<string, Settings>, sanitize: string -> string)
    ensures RenderSettingsPage(false, None, None, roles, options, sanitize) == None
    ensures RenderSettingsPage(true, None, None, roles, options, sanitize).Some?
    ensures RenderSettingsPage(true, None, None, roles, options, sanitize).value.tab == MenuItemsTab
    ensures |roles| > 0 ==> RenderSettingsPage(true, None, None, roles, options, sanitize).value.role == roles[0]
    ensures |roles| == 0 ==> RenderSettingsPage(true, None, None, roles, options, sanitize).value.role == "administrator"
    ensures |roles| > 0 ==> RenderSettingsPage(true, None, None, roles, options, sanitize).value.settings ==
                            GetOption(options, "sa_menu_settings_" + roles[0], [])
  {
  }

  /** The page and the AJAX endpoint show the same settings for the same role and tab. */
  lemma PageAgreesWithAjax(role: string, tab: Option<string>, roles: seq<string>,
                           options: map<string, Settings>, sanitize: string -> string)
    ensures AjaxLoadRoleSettings(true, true, role, tab, options, sanitize) ==
            JsonSuccess(RenderSettingsPage(true, Some(role), tab, roles, options, sanitize).value.settings)
  {
  }
}
