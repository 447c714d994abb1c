/** The group HTTP handlers (backend/src/controllers/group.controller.js):
    each loads one group (`findById`, null when absent), runs its guard
    checks in order, then updates the group in place. The authenticated
    caller's id is an explicit parameter; a failed save leaves the stored
    group as it was. */
module GroupController {
  import opened Common
  import opened GroupModel
  import Users

  datatype Failure =
    | NameRequired | GroupNotFound | NotAMember | AlreadyMember | PrivateGroup | GroupFull
    | InvitesNotAllowed | UserNotFound | InviteeAlreadyMember | AdminsOnly | CreatorOnly
    | ValidationFailed

  /** An error reply: HTTP status and what went wrong. */
  datatype GroupError = GroupError(status: nat, failure: Failure)

  const NotFound := GroupError(404, GroupNotFound)
  /** A schema validation error thrown by `save`/`create`, caught as a 500. */
  const SaveRejected := GroupError(500, ValidationFailed)

  /** The `!name || name.trim().length === 0` guard of createGroup. */
  predicate NameMissing(name: Option<string>) {
    !Truthy(name) || |Trim(name.value)| == 0
  }

  /** The guard rejects exactly a missing name and a name made only of
      whitespace. */
  lemma NameMissingIff(name: Option<string>)
    ensures NameMissing(name) <==> name.None? || AllSpace(name.value)
  {
    if name.Some? {
      TrimEmptyIff(name.value);
    }
  }

  /** createGroup: the name is required; the creator becomes the only
      member, as admin, and the only entry of `admins`; invites and file
      sharing are on and the capacity is 100. */
  method CreateGroup(creatorId: UserId, name: Option<string>, description: Option<string>,
                     isPrivate: Option<bool>, tags: Option<seq<string>>, avatar: Option<string>,
                     now: Millis)
    returns (r: Result<Group, GroupError>)
    ensures NameMissing(name) ==> r == Err(GroupError(400, NameRequired))
    ensures !NameMissing(name) ==> (r.Ok? <==>
      SchemaValid(Trim(name.value), if description.Some? then Trim(description.value) else "", tags.GetOr([])))
    ensures r.Err? && !NameMissing(name) ==> r == Err(SaveRejected)
    ensures r.Ok? ==>
      && fresh(r.value)
      && r.value.name == Trim(name.value)
      && r.value.description == (if description.Some? then Trim(description.value) else "")
      && r.value.creator == creatorId
      && r.value.members == [Membership(creatorId, Admin, now, true)]
      && r.value.admins == [creatorId] && r.value.moderators == []
      && r.value.settings == Settings(isPrivate.GetOr(false), true, true, 100)
      && r.value.avatar == avatar.GetOr("") && r.value.tags == tags.GetOr([])
      && r.value.isActive
      && r.value.MemberCount() == 1
      && r.value.Valid()
  {
    if NameMissing(name) {
      return Err(GroupError(400, NameRequired));
    }
    var n := Trim(name.value);
    var d := if description.Some? then Trim(description.value) else "";
    var t := tags.GetOr([]);
    if !SchemaValid(n, d, t) {
      return Err(SaveRejected);
    }
    var entry := Membership(creatorId, Admin, now, true);
    FounderOnly(creatorId, now);
    var g := new Group(n, d, creatorId, [entry], [creatorId],
                       Settings(isPrivate.GetOr(false), true, true, 100), avatar.GetOr(""), t);
    r := Ok(g);
  }

  /** getGroupDetails: only an active member may read a group. */
  function GetGroupDetails(g: Group?, u: UserId): (r: Result<Group, GroupError>)
    reads g
    ensures g == null ==> r == Err(NotFound)
    ensures g != null ==> (r.Ok? <==> g.IsMember(u))
    ensures g != null && !g.IsMember(u) ==> r == Err(GroupError(403, NotAMember))
    ensures r.Ok? ==> r.value == g
  {
    if g == null then Err(NotFound)
    else if !g.IsMember(u) then Err(GroupError(403, NotAMember))
    else Ok(g)
  }

  /** joinGroup: refuses, in this order, a current member (400), a private
      group (403) and a full group (400); otherwise adds the caller as a
      plain member. A group at or under capacity stays so. */
  method JoinGroup(g: Group?, u: UserId, now: Millis) returns (r: Result<(), GroupError>)
    requires g != null ==> g.Valid()
    modifies g
    ensures g == null ==> r == Err(NotFound)
    ensures g != null ==> (r ==
      if old(g.IsMember(u)) then Err(GroupError(400, AlreadyMember))
      else if old(g.settings.isPrivate) then Err(GroupError(403, PrivateGroup))
      else if old(g.MemberCount()) >= old(g.settings.maxMembers) then Err(GroupError(400, GroupFull))
      else Ok(()))
    ensures g != null && r.Err? ==> unchanged(g)
    ensures g != null && r.Ok? ==>
      && g.members == old(g.members) + [Membership(u, Member, now, true)]
      && g.admins == old(g.admins) && g.moderators == old(g.moderators)
      && g.MemberCount() == old(g.MemberCount()) + 1
      && g.Profile() == old(g.Profile()) && g.creator == old(g.creator) && g.isActive == old(g.isActive)
    ensures g != null ==> g.Valid()
    ensures g != null && old(g.MemberCount()) <= old(g.settings.maxMembers) ==>
      g.MemberCount() <= g.settings.maxMembers
  {
    if g == null {
      return Err(NotFound);
    }
    if g.IsMember(u) {
      return Err(GroupError(400, AlreadyMember));
    }
    if g.settings.isPrivate {
      return Err(GroupError(403, PrivateGroup));
    }
    if g.MemberCount() >= g.settings.maxMembers {
      return Err(GroupError(400, GroupFull));
    }
    AddPlainMember(g, u, now);
    r := Ok(());
  }

  /** `addMember(userId, "member")` for a non-member of a consistent group,
      as joinGroup and inviteToGroup call it. */
  method AddPlainMember(g: Group, u: UserId, now: Millis)
    requires g.Valid() && !g.IsMember(u)
    modifies g
    ensures g.members == old(g.members) + [Membership(u, Member, now, true)]
    ensures g.admins == old(g.admins) && g.moderators == old(g.moderators)
    ensures g.MemberCount() == old(g.MemberCount()) + 1
    ensures g.Profile() == old(g.Profile()) && g.creator == old(g.creator) && g.isActive == old(g.isActive)
    ensures g.Valid()
  {
    g.AddMember(u, Member, now);
    var n := |g.members| - 1;
    forall a | a in g.admins ensures HasActiveEntry(g.members, a) && a !in g.moderators {
      assert a != u;
      assert old(g.IsMember(a));
    }
    forall m | m in g.moderators ensures HasActiveEntry(g.members, m) {
      assert m != u;
      assert old(g.IsMember(m));
    }
    forall i | 0 <= i < |g.members| && g.members[i].isActive
      ensures (g.members[i].role == Admin <==> g.members[i].user in g.admins)
      ensures (g.members[i].role == Moderator <==> g.members[i].user in g.moderators)
    {
      if i < n {
        assert g.members[i] == old(g.members)[i];
      }
    }
  }

  /** leaveGroup: refuses a non-member (400) and changes nothing then. A
      departing creator hands the group to the first other admin, or, with
      none left, deactivates it; the leaver is then removed as
      `removeMember` does, and every other entry stays as it was. */
  method LeaveGroup(g: Group?, u: UserId) returns (r: Result<(), GroupError>)
    requires g != null ==> g.Valid()
    modifies g
    ensures g == null ==> r == Err(NotFound)
    ensures g != null ==> (r.Ok? <==> old(g.IsMember(u)))
    ensures g != null && r.Err? ==> r == Err(GroupError(400, NotAMember)) && unchanged(g)
    ensures g != null && r.Ok? ==>
      var others := Without(old(g.admins), u);
      && g.creator == (if old(g.creator) == u && others != [] then others[0] else old(g.creator))
      && g.isActive == (old(g.isActive) && !(old(g.creator) == u && others == []))
      && g.members == Deactivate(old(g.members), u)
      && (forall i :: 0 <= i < |g.members| && old(g.members)[i].user != u ==> g.members[i] == old(g.members)[i])
      && g.admins == others && g.moderators == Without(old(g.moderators), u)
      && !g.IsMember(u)
      && g.MemberCount() == old(g.MemberCount()) - 1
      && g.Profile() == old(g.Profile())
    ensures g != null ==> g.Valid()
  {
    if g == null {
      return Err(NotFound);
    }
    if !g.IsMember(u) {
      return Err(GroupError(400, NotAMember));
    }
    DeactivateCount(g.members, u);
    if g.creator == u {
      var otherAdmins := Without(g.admins, u);
      if |otherAdmins| > 0 {
        g.creator := otherAdmins[0];
      } else {
        g.isActive := false;
      }
    }
    RemoveFromGroup(g, u);
    r := Ok(());
  }

  /** `removeMember(userId)` on a group whose lists are consistent keeps
      them consistent. */
  method RemoveFromGroup(g: Group, u: UserId)
    requires RolesConsistent(g.members, g.admins, g.moderators)
    modifies g
    ensures g.members == Deactivate(old(g.members), u)
    ensures forall i :: 0 <= i < |g.members| && old(g.members)[i].user != u ==> g.members[i] == old(g.members)[i]
    ensures g.admins == Without(old(g.admins), u) && g.moderators == Without(old(g.moderators), u)
    ensures !g.IsMember(u)
    ensures g.Profile() == old(g.Profile()) && g.creator == old(g.creator) && g.isActive == old(g.isActive)
    ensures RolesConsistent(g.members, g.admins, g.moderators)
  {
    g.RemoveMember(u);
    ghost var ms := g.members;
    assert forall i :: 0 <= i < |ms| && ms[i].isActive ==> ms[i] == old(g.members)[i] && ms[i].user != u;
    forall a | a in g.admins ensures HasActiveEntry(ms, a) {
      assert old(g.IsMember(a)) && a != u;
    }
    forall m | m in g.moderators ensures HasActiveEntry(ms, m) {
      assert old(g.IsMember(m)) && m != u;
    }
  }

  /** inviteToGroup: refuses, in this order, an inviter who is not a member
      (403), a non-admin inviter when member invites are off (403), an
      unknown invitee (404), an invitee already in the group (400) and a full
      group (400); otherwise adds the invitee as a plain member. */
  method InviteToGroup(g: Group?, users: Users.UserCollection, inviter: UserId, invitee: UserId, now: Millis)
    returns (r: Result<(), GroupError>)
    requires g != null ==> g.Valid()
    modifies g
    ensures g == null ==> r == Err(NotFound)
    ensures g != null ==> (r ==
      if !old(g.IsMember(inviter)) then Err(GroupError(403, NotAMember))
      else if !old(g.settings.allowMemberInvites) && !old(g.IsAdmin(inviter)) then Err(GroupError(403, InvitesNotAllowed))
      else if users.FindById(invitee).None? then Err(GroupError(404, UserNotFound))
      else if old(g.IsMember(invitee)) then Err(GroupError(400, InviteeAlreadyMember))
      else if old(g.MemberCount()) >= old(g.settings.maxMembers) then Err(GroupError(400, GroupFull))
      else Ok(()))
    ensures g != null && r.Err? ==> unchanged(g)
    ensures g != null && r.Ok? ==>
      && g.members == old(g.members) + [Membership(invitee, Member, now, true)]
      && g.admins == old(g.admins) && g.moderators == old(g.moderators)
      && g.MemberCount() == old(g.MemberCount()) + 1
      && g.Profile() == old(g.Profile()) && g.creator == old(g.creator) && g.isActive == old(g.isActive)
    ensures g != null ==> g.Valid()
    ensures g != null && old(g.MemberCount()) <= old(g.settings.maxMembers) ==>
      g.MemberCount() <= g.settings.maxMembers
  {
    if g == null {
      return Err(NotFound);
    }
    if !g.IsMember(inviter) {
      return Err(GroupError(403, NotAMember));
    }
    if !g.settings.allowMemberInvites && !g.IsAdmin(inviter) {
      return Err(GroupError(403, InvitesNotAllowed));
    }
    if users.FindById(invitee).None? {
      return Err(GroupError(404, UserNotFound));
    }
    if g.IsMember(invitee) {
      return Err(GroupError(400, InviteeAlreadyMember));
    }
    if g.MemberCount() >= g.settings.maxMembers {
      return Err(GroupError(400, GroupFull));
    }
    AddPlainMember(g, invitee, now);
    r := Ok(());
  }

  /** The `settings` object of an update body: only the keys it carries. */
  datatype SettingsPatch = SettingsPatch(isPrivate: Option<bool>, allowMemberInvites: Option<bool>,
                                         allowFileSharing: Option<bool>, maxMembers: Option<int>)

  /** An update body; an absent key is None. */
  datatype GroupUpdate = GroupUpdate(name: Option<string>, description: Option<string>, avatar: Option<string>,
                                     tags: Option<seq<string>>, settings: Option<SettingsPatch>)

  /** `{ ...settings, ...patch }`: a key the patch carries wins, every
      other key keeps its value. */
  function MergeSettings(s: Settings, p: SettingsPatch): (r: Settings)
    ensures r.isPrivate == (if p.isPrivate.Some? then p.isPrivate.value else s.isPrivate)
    ensures r.allowMemberInvites == (if p.allowMemberInvites.Some? then p.allowMemberInvites.value else s.allowMemberInvites)
    ensures r.allowFileSharing == (if p.allowFileSharing.Some? then p.allowFileSharing.value else s.allowFileSharing)
    ensures r.maxMembers == (if p.maxMembers.Some? then p.maxMembers.value else s.maxMembers)
  {
    Settings(p.isPrivate.GetOr(s.isPrivate), p.allowMemberInvites.GetOr(s.allowMemberInvites),
             p.allowFileSharing.GetOr(s.allowFileSharing), p.maxMembers.GetOr(s.maxMembers))
  }

  /** Merging an empty patch keeps the settings, and merging the same patch
      twice is merging it once. */
  lemma MergeSettingsLaws(s: Settings, p: SettingsPatch)
    ensures MergeSettings(s, SettingsPatch(None, None, None, None)) == s
    ensures MergeSettings(MergeSettings(s, p), p) == MergeSettings(s, p)
  {
  }

  /** The name updateGroupSettings stores: a truthy new name, trimmed. */
  function UpdatedName(current: string, p: GroupUpdate): (r: string)
    ensures !Truthy(p.name) ==> r == current
    ensures Truthy(p.name) ==> r == [] || (!IsJsSpace(r[0]) && !IsJsSpace(r[|r| - 1]))
    ensures Truthy(p.name) ==> (r == [] <==> AllSpace(p.name.value))
  {
    TrimEmptyIff(if p.name.Some? then p.name.value else []);
    if Truthy(p.name) then Trim(p.name.value) else current
  }

  /** The description it stores: a present one, trimmed (so `""` clears it). */
  function UpdatedDescription(current: string, p: GroupUpdate): (r: string)
    ensures p.description.None? ==> r == current
    ensures p.description.Some? ==> r == [] || (!IsJsSpace(r[0]) && !IsJsSpace(r[|r| - 1]))
    ensures p.description.Some? ==> (r == [] <==> AllSpace(p.description.value))
  {
    TrimEmptyIff(if p.description.Some? then p.description.value else []);
    if p.description.Some? then Trim(p.description.value) else current
  }

  /** updateGroupSettings: admins only (403 otherwise). A truthy name is
      trimmed and stored, a present description trimmed and stored, a
      present avatar or tag list stored, present settings shallow-merged;
      nothing else changes. A result the schema refuses is not saved (500). */
  method UpdateGroupSettings(g: Group?, u: UserId, p: GroupUpdate) returns (r: Result<(), GroupError>)
    requires g != null ==> g.Valid()
    modifies g
    ensures g == null ==> r == Err(NotFound)
    ensures g != null && !old(g.IsAdmin(u)) ==> r == Err(GroupError(403, AdminsOnly))
    ensures g != null && r.Err? ==> unchanged(g)
    ensures g != null && old(g.IsAdmin(u)) ==>
      (r.Ok? <==> SchemaValid(UpdatedName(old(g.name), p), UpdatedDescription(old(g.description), p),
                              p.tags.GetOr(old(g.tags))))
    ensures g != null && old(g.IsAdmin(u)) && r.Err? ==> r == Err(SaveRejected)
    ensures g != null && r.Ok? ==>
      && g.name == UpdatedName(old(g.name), p) && g.description == UpdatedDescription(old(g.description), p)
      && g.tags == p.tags.GetOr(old(g.tags)) && g.avatar == p.avatar.GetOr(old(g.avatar))
      && g.settings == (if p.settings.Some? then MergeSettings(old(g.settings), p.settings.value) else old(g.settings))
      && g.members == old(g.members) && g.admins == old(g.admins) && g.moderators == old(g.moderators)
      && g.creator == old(g.creator) && g.isActive == old(g.isActive)
    ensures g != null ==> g.Valid()
  {
    if g == null {
      return Err(NotFound);
    }
    if !g.IsAdmin(u) {
      return Err(GroupError(403, AdminsOnly));
    }
    var name' := UpdatedName(g.name, p);
    var description' := UpdatedDescription(g.description, p);
    var tags' := p.tags.GetOr(g.tags);
    if !SchemaValid(name', description', tags') {
      return Err(SaveRejected);
    }
    ApplyUpdate(g, p);
    r := Ok(());
  }

  /** The save step of updateGroupSettings, once the result is known to
      pass validation. */
  method ApplyUpdate(g: Group, p: GroupUpdate)
    requires g.Valid()
    requires SchemaValid(UpdatedName(g.name, p), UpdatedDescription(g.description, p), p.tags.GetOr(g.tags))
    modifies g
    ensures g.name == UpdatedName(old(g.name), p) && g.description == UpdatedDescription(old(g.description), p)
    ensures g.tags == p.tags.GetOr(old(g.tags)) && g.avatar == p.avatar.GetOr(old(g.avatar))
    ensures g.settings == (if p.settings.Some? then MergeSettings(old(g.settings), p.settings.value) else old(g.settings))
    ensures g.members == old(g.members) && g.admins == old(g.admins) && g.moderators == old(g.moderators)
    ensures g.creator == old(g.creator) && g.isActive == old(g.isActive)
    ensures g.Valid()
  {
    var settings' := if p.settings.Some? then MergeSettings(g.settings, p.settings.value) else g.settings;
    g.name, g.description, g.avatar, g.tags, g.settings :=
      UpdatedName(g.name, p), UpdatedDescription(g.description, p), p.avatar.GetOr(g.avatar), p.tags.GetOr(g.tags), settings';
  }

  /** deleteGroup: only the creator (403 otherwise); a soft delete that
      clears `isActive` and keeps every membership. */
  method DeleteGroup(g: Group?, u: UserId) returns (r: Result<(), GroupError>)
    requires g != null ==> g.Valid()
    modifies g
    ensures g == null ==> r == Err(NotFound)
    ensures g != null ==> (r.Ok? <==> old(g.creator) == u)
    ensures g != null && r.Err? ==> r == Err(GroupError(403, CreatorOnly)) && unchanged(g)
    ensures g != null && r.Ok? ==>
      && !g.isActive
      && g.members == old(g.members) && g.admins == old(g.admins) && g.moderators == old(g.moderators)
      && g.Profile() == old(g.Profile()) && g.creator == old(g.creator)
    ensures g != null ==> g.Valid()
  {
    if g == null {
      return Err(NotFound);
    }
    if g.creator != u {
      return Err(GroupError(403, CreatorOnly));
    }
    g.isActive := false;
    r := Ok(());
  }

  /** Joining and then leaving, from a state where the user is not a member,
      gives back the member count and both role lists. */
  lemma JoinLeaveRestores(ms: seq<Membership>, admins: seq<UserId>, moderators: seq<UserId>, u: UserId, now: Millis)
    requires !HasActiveEntry(ms, u)
    requires u !in admins && u !in moderators
    ensures ActiveCount(Deactivate(ms + [Membership(u, Member, now, true)], u)) == ActiveCount(ms)
    ensures Without(admins, u) == admins && Without(moderators, u) == moderators
  {
    var joined := ms + [Membership(u, Member, now, true)];
    assert Deactivate(joined, u) == Deactivate(ms, u) + [Membership(u, Member, now, false)];
    DeactivateNonMember(ms, u);
    ActiveCountAppend(ms, Membership(u, Member, now, false));
  }

  /** In a consistent group the admin count is the number of distinct
      admins, every one of them an active member. */
  lemma AdminCountIsDistinctAdmins(g: Group)
    requires g.Valid()
    ensures g.AdminCount() == |Elements(g.admins)|
    ensures forall a :: a in g.admins ==> g.IsMember(a)
  {
    DistinctCardinality(g.admins);
  }
}
