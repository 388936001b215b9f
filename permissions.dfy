/**
 * `hasPermission` of `src/utils.ts`: the blacklist/whitelist rule a live
 * command's configuration attaches to it, decided over the invoking member's
 * role ids.
 */
module Permissions {
  import opened Wrappers

  /**
   * One entry of the config's `permissions` map.  A list that is present is
   * truthy even when it is empty.
   */
  datatype PermissionRule = PermissionRule(blacklist: Option<seq<string>>, whitelist: Option<seq<string>>)

  /** The invoking member; `roles` is None when `user.roles` or its cache is missing. */
  datatype Member = Member(roles: Option<set<string>>)

  /** `roles.hasAny(...ids)`: some listed id is one of the member's roles. */
  function HasAny(roles: set<string>, ids: seq<string>): (r: bool)
    ensures r <==> exists i :: 0 <= i < |ids| && ids[i] in roles
  {
    if |ids| == 0 then false
    else if ids[0] in roles then true
    else
      assert forall i :: 1 <= i < |ids| ==> ids[i] == ids[1..][i - 1];
      HasAny(roles, ids[1..])
  }

  /** The roles of the member, when there is a member whose roles can be read. */
  predicate HasRoles(member: Option<Member>) {
    member.Some? && member.value.roles.Some?
  }

  /** `hasPermission(permissions, user)` */
  function HasPermission(rule: Option<PermissionRule>, member: Option<Member>): (r: bool)
    // No rule: everyone may.
    ensures rule.None? ==> r
    // A rule but no readable roles: allowed only when the rule lists nothing.
    ensures rule.Some? && !HasRoles(member) ==>
      (r <==> rule.value.blacklist.None? && rule.value.whitelist.None?)
    // A blacklist decides alone: allowed iff no role is blacklisted.
    ensures rule.Some? && HasRoles(member) && rule.value.blacklist.Some? ==>
      (r <==> forall i :: 0 <= i < |rule.value.blacklist.value| ==> rule.value.blacklist.value[i] !in member.value.roles.value)
    // Only a whitelist: allowed iff some role is whitelisted.
    ensures rule.Some? && HasRoles(member) && rule.value.blacklist.None? && rule.value.whitelist.Some? ==>
      (r <==> exists i :: 0 <= i < |rule.value.whitelist.value| && rule.value.whitelist.value[i] in member.value.roles.value)
    // Neither list: allowed.
    ensures rule.Some? && rule.value.blacklist.None? && rule.value.whitelist.None? ==> r
  {
    if rule.None? then true
    else if !HasRoles(member) then
      !(rule.value.blacklist.Some? || rule.value.whitelist.Some?)
    else
      var roles := member.value.roles.value;
      if rule.value.blacklist.Some? then !HasAny(roles, rule.value.blacklist.value)
      else if rule.value.whitelist.Some? then HasAny(roles, rule.value.whitelist.value)
      else true
  }

  /** Once a blacklist is present, the whitelist plays no part. */
  lemma BlacklistIgnoresWhitelist(black: seq<string>, w1: Option<seq<string>>, w2: Option<seq<string>>, member: Option<Member>)
    ensures HasPermission(Some(PermissionRule(Some(black), w1)), member) ==
            HasPermission(Some(PermissionRule(Some(black), w2)), member)
  {
  }

  /** An empty whitelist, without a blacklist, denies everyone. */
  lemma EmptyWhitelistDeniesAll(member: Option<Member>)
    ensures !HasPermission(Some(PermissionRule(None, Some([]))), member)
  {
  }

  /** An empty blacklist lets in every member whose roles can be read, and no one else. */
  lemma EmptyBlacklistAllowsMembers(w: Option<seq<string>>, member: Option<Member>)
    ensures HasPermission(Some(PermissionRule(Some([]), w)), member) <==> HasRoles(member)
  {
  }

  /**
   * Gaining roles never revokes a whitelist's permission, and losing roles
   * never revokes a blacklist's.
   */
  lemma RolesMonotone(rule: PermissionRule, fewer: set<string>, more: set<string>)
    requires fewer <= more
    ensures rule.blacklist.None? && HasPermission(Some(rule), Some(Member(Some(fewer)))) ==>
      HasPermission(Some(rule), Some(Member(Some(more))))
    ensures rule.blacklist.Some? && HasPermission(Some(rule), Some(Member(Some(more)))) ==>
      HasPermission(Some(rule), Some(Member(Some(fewer))))
  {
  }

  /** A member without readable roles is never better off than one with roles. */
  lemma NoRolesIsLeastPermitted(rule: Option<PermissionRule>, member: Option<Member>, roles: set<string>)
    requires !HasRoles(member)
    ensures HasPermission(rule, member) ==> HasPermission(rule, Some(Member(Some(roles))))
  {
  }
}
