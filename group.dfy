/** A chat group document: its embedded membership list, the separate
    `admins` and `moderators` id lists, its settings, and the instance methods
    that update them in place (backend/src/models/Group.js). */
module GroupModel {
  import opened Common

  /** The `role` enum of a membership entry; the schema default is Member. */
  datatype Role = Admin | Moderator | Member

  /** One embedded `members` entry. Leaving a group keeps the entry and only
      clears `isActive`. */
  datatype Membership = Membership(user: UserId, role: Role, joinedAt: Millis, isActive: bool)

  datatype Settings = Settings(isPrivate: bool, allowMemberInvites: bool, allowFileSharing: bool, maxMembers: int)

  /** The schema defaults of the `settings` sub-document. */
  const DefaultSettings := Settings(false, true, true, 100)

  const MaxNameLength := 100
  const MaxDescriptionLength := 500
  const MaxTagLength := 20

  /** What Mongoose validation demands of the string paths before a save:
      `name` is required (so not empty) and at most 100 UTF-16 units,
      `description` at most 500, every tag at most 20. */
  predicate SchemaValid(name: string, description: string, tags: seq<string>) {
    && 0 < Utf16Length(name) <= MaxNameLength
    && Utf16Length(description) <= MaxDescriptionLength
    && forall i :: 0 <= i < |tags| ==> Utf16Length(tags[i]) <= MaxTagLength
  }

  /** Number of active entries (the `memberCount` virtual), counted from the
      end so that appending an entry is one unfolding. */
  function ActiveCount(ms: seq<Membership>): (n: nat)
    ensures n <= |ms|
  {
    if ms == [] then 0
    else ActiveCount(ms[..|ms| - 1]) + (if ms[|ms| - 1].isActive then 1 else 0)
  }

  function ActiveIndices(ms: seq<Membership>): set<nat> {
    set i: nat | i < |ms| && ms[i].isActive
  }

  /** The member count is the number of entries whose `isActive` is set;
      inactive entries never count. */
  lemma {:induction false} ActiveCountIsActiveEntries(ms: seq<Membership>)
    ensures ActiveCount(ms) == |ActiveIndices(ms)|
  {
    if ms != [] {
      var init := ms[..|ms| - 1];
      ActiveCountIsActiveEntries(init);
      if ms[|ms| - 1].isActive {
        assert ActiveIndices(ms) == ActiveIndices(init) + {|ms| - 1};
      } else {
        assert ActiveIndices(ms) == ActiveIndices(init);
      }
    }
  }

  /** `members.some(m => m.user == u && m.isActive)`. */
  function HasActiveEntry(ms: seq<Membership>, u: UserId): (b: bool)
    ensures b <==> exists i :: 0 <= i < |ms| && ms[i].user == u && ms[i].isActive
  {
    if ms == [] then false
    else (ms[0].user == u && ms[0].isActive) || HasActiveEntry(ms[1..], u)
  }

  /** The `members.map` of removeMember: every entry of u made inactive. */
  function Deactivate(ms: seq<Membership>, u: UserId): seq<Membership> {
    seq(|ms|, i requires 0 <= i < |ms| => if ms[i].user == u then ms[i].(isActive := false) else ms[i])
  }

  /** No user has two active entries. */
  predicate UniqueActive(ms: seq<Membership>) {
    forall i, j :: 0 <= i < j < |ms| && ms[i].isActive && ms[j].isActive ==> ms[i].user != ms[j].user
  }

  /** Deactivating a user who has no active entry changes nothing. */
  lemma DeactivateNonMember(ms: seq<Membership>, u: UserId)
    requires !HasActiveEntry(ms, u)
    ensures Deactivate(ms, u) == ms
  {
  }

  /** Removing a member who holds exactly one active entry lowers the count
      by one; removing a non-member leaves it as it was. */
  lemma {:induction false} DeactivateCount(ms: seq<Membership>, u: UserId)
    requires UniqueActive(ms)
    ensures ActiveCount(Deactivate(ms, u)) == ActiveCount(ms) - (if HasActiveEntry(ms, u) then 1 else 0)
  {
    if ms != [] {
      var n := |ms|;
      var init := ms[..n - 1];
      var last := ms[n - 1];
      assert Deactivate(ms, u) == Deactivate(init, u) + [Deactivate(ms, u)[n - 1]];
      assert Deactivate(ms, u)[..n - 1] == Deactivate(init, u);
      if last.user == u && last.isActive {
        assert !HasActiveEntry(init, u);
        DeactivateNonMember(init, u);
      } else {
        DeactivateCount(init, u);
        assert HasActiveEntry(ms, u) == HasActiveEntry(init, u);
      }
    }
  }

  /** Appending one entry adds one to the count exactly when it is active. */
  lemma ActiveCountAppend(ms: seq<Membership>, m: Membership)
    ensures ActiveCount(ms + [m]) == ActiveCount(ms) + (if m.isActive then 1 else 0)
  {
    assert (ms + [m])[..|ms|] == ms;
  }

  /** The membership part of `Group.Valid`, over the three lists alone:
      nobody has two active entries, the role lists hold active members
      only, each once, an admin is not also a moderator, and an active
      entry's role agrees with the lists. */
  predicate RolesConsistent(ms: seq<Membership>, admins: seq<UserId>, moderators: seq<UserId>) {
    && UniqueActive(ms)
    && NoDuplicates(admins) && NoDuplicates(moderators)
    && (forall a :: a in admins ==> HasActiveEntry(ms, a) && a !in moderators)
    && (forall m :: m in moderators ==> HasActiveEntry(ms, m))
    && (forall i :: 0 <= i < |ms| && ms[i].isActive ==>
          && (ms[i].role == Admin <==> ms[i].user in admins)
          && (ms[i].role == Moderator <==> ms[i].user in moderators))
  }

  /** A group holding only its founder, as admin, has consistent roles and
      one active member. */
  lemma FounderOnly(creator: UserId, joined: Millis)
    ensures RolesConsistent([Membership(creator, Admin, joined, true)], [creator], [])
    ensures ActiveCount([Membership(creator, Admin, joined, true)]) == 1
  {
    var ms := [Membership(creator, Admin, joined, true)];
    assert ms[..0] == [];
    assert HasActiveEntry(ms, creator);
  }

  class Group {
    var name: string
    var description: string
    var creator: UserId
    var members: seq<Membership>
    var admins: seq<UserId>
    var moderators: seq<UserId>
    var settings: Settings
    var avatar: string
    var tags: seq<string>
    var isActive: bool

    /** `Group.create` with the given paths; `isActive` takes its default. */
    constructor (name: string, description: string, creator: UserId, members: seq<Membership>,
                 admins: seq<UserId>, settings: Settings, avatar: string, tags: seq<string>)
      ensures this.name == name && this.description == description && this.creator == creator
      ensures this.members == members && this.admins == admins && this.moderators == []
      ensures this.settings == settings && this.avatar == avatar && this.tags == tags
      ensures this.isActive
    {
      this.name := name;
      this.description := description;
      this.creator := creator;
      this.members := members;
      this.admins := admins;
      this.moderators := [];
      this.settings := settings;
      this.avatar := avatar;
      this.tags := tags;
      this.isActive := true;
    }

    /** What the handlers keep true of every group they create or update:
        the document passes schema validation, the role lists agree with
        the active entries, and an active group's creator is an admin. */
    predicate Valid()
      reads this
    {
      && SchemaValid(name, description, tags)
      && RolesConsistent(members, admins, moderators)
      && (isActive ==> creator in admins)
    }

    /** The `memberCount` virtual. */
    function MemberCount(): (n: nat)
      reads this
      ensures n <= |members|
      ensures n == |ActiveIndices(members)|
    {
      ActiveCountIsActiveEntries(members);
      ActiveCount(members)
    }

    /** The `adminCount` virtual: in a valid group, the number of distinct
        admins. */
    function AdminCount(): (n: nat)
      reads this
      ensures Valid() ==> n == |Elements(admins)|
    {
      if Valid() then DistinctCardinality(admins); |admins| else |admins|
    }

    /** A user is a member when some entry names them and is active. */
    predicate IsMember(u: UserId)
      reads this
      ensures IsMember(u) <==> exists i :: 0 <= i < |members| && members[i].user == u && members[i].isActive
    {
      HasActiveEntry(members, u)
    }

    /** `isAdmin`: listed in `admins`; in a valid group, exactly an active
        member whose entry has the admin role. */
    predicate IsAdmin(u: UserId)
      reads this
      ensures Valid() ==>
        (IsAdmin(u) <==> exists i :: 0 <= i < |members| && members[i].user == u && members[i].isActive
                                     && members[i].role == Admin)
    {
      u in admins
    }

    /** `isModerator`: listed in `moderators`; in a valid group, exactly an
        active member whose entry has the moderator role. */
    predicate IsModerator(u: UserId)
      reads this
      ensures Valid() ==>
        (IsModerator(u) <==> exists i :: 0 <= i < |members| && members[i].user == u && members[i].isActive
                                         && members[i].role == Moderator)
    {
      u in moderators
    }

    /** The paths that only group creation and the settings update write. */
    function Profile(): (string, string, Settings, string, seq<string>)
      reads this
    {
      (name, description, settings, avatar, tags)
    }

    /** `addMember(userId, role)`: a no-op for an active member; otherwise one
        active entry appended and, for role admin or moderator, the id appended
        to the matching list. `now` stands for the `new Date()` of the entry. */
    method AddMember(u: UserId, role: Role, now: Millis)
      modifies this
      ensures old(IsMember(u)) ==>
        members == old(members) && admins == old(admins) && moderators == old(moderators)
      ensures !old(IsMember(u)) ==>
        && members == old(members) + [Membership(u, role, now, true)]
        && admins == old(admins) + (if role == Admin then [u] else [])
        && moderators == old(moderators) + (if role == Moderator then [u] else [])
      ensures IsMember(u)
      ensures MemberCount() == old(MemberCount()) + (if old(IsMember(u)) then 0 else 1)
      ensures forall v :: v != u ==> (IsMember(v) <==> old(IsMember(v)))
      ensures Profile() == old(Profile()) && creator == old(creator) && isActive == old(isActive)
    {
      if !IsMember(u) {
        ActiveCountAppend(members, Membership(u, role, now, true));
        members := members + [Membership(u, role, now, true)];
        if role == Admin {
          admins := admins + [u];
        } else if role == Moderator {
          moderators := moderators + [u];
        }
      }
    }

    /** `removeMember(userId)`: every entry of the user made inactive, the id
        dropped from both role lists; nobody else is affected. */
    method RemoveMember(u: UserId)
      modifies this
      ensures members == Deactivate(old(members), u)
      ensures admins == Without(old(admins), u) && moderators == Without(old(moderators), u)
      ensures !IsMember(u) && !IsAdmin(u) && !IsModerator(u)
      ensures forall i :: 0 <= i < |members| && old(members)[i].user != u ==> members[i] == old(members)[i]
      ensures forall v :: v != u ==>
        (IsMember(v) <==> old(IsMember(v))) && (IsAdmin(v) <==> old(IsAdmin(v))) && (IsModerator(v) <==> old(IsModerator(v)))
      ensures Profile() == old(Profile()) && creator == old(creator) && isActive == old(isActive)
    {
      members := Deactivate(members, u);
      admins := Without(admins, u);
      moderators := Without(moderators, u);
    }

    /** `updateMemberRole(userId, newRole)`: the FIRST entry naming the user
        (active or not) gets the new role, and the user ends up in exactly the
        role list that matches it, added once at most; without an entry nothing
        changes. */
    method UpdateMemberRole(u: UserId, r: Role)
      modifies this
      ensures var k := FirstIndex(old(members), (m: Membership) => m.user == u);
        if k.None? then
          members == old(members) && admins == old(admins) && moderators == old(moderators)
        else
          && members == old(members)[k.value := old(members)[k.value].(role := r)]
          && admins == (if r == Admin then AddToSet(old(admins), u) else Without(old(admins), u))
          && moderators == (if r == Moderator then AddToSet(old(moderators), u) else Without(old(moderators), u))
      ensures FirstIndex(old(members), (m: Membership) => m.user == u).Some? ==>
        (IsAdmin(u) <==> r == Admin) && (IsModerator(u) <==> r == Moderator)
      ensures NoDuplicates(old(admins)) ==> NoDuplicates(admins)
      ensures NoDuplicates(old(moderators)) ==> NoDuplicates(moderators)
      ensures Profile() == old(Profile()) && creator == old(creator) && isActive == old(isActive)
    {
      var k := FirstIndex(members, (m: Membership) => m.user == u);
      if k.Some? {
        members := members[k.value := members[k.value].(role := r)];
        if r == Admin {
          if u !in admins {
            admins := admins + [u];
          }
          moderators := Without(moderators, u);
        } else if r == Moderator {
          if u !in moderators {
            moderators := moderators + [u];
          }
          admins := Without(admins, u);
        } else {
          admins := Without(admins, u);
          moderators := Without(moderators, u);
        }
      }
    }
  }
}
