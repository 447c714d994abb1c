/** The user document (backend/src/models/User.js) and the user collection
    the handlers query with `findById` and `findOne({ email })`. */
module Users {
  import opened Common

  /** The stored paths of a user. `password` holds the bcrypt hash the
      pre-save hook writes; `otp`/`otpExpires` are the pending email
      verification code and its deadline. */
  datatype User = User(
    id: UserId,
    email: string,
    fullName: string,
    password: Option<string>,
    googleId: Option<string>,
    bio: string,
    profilePic: string,
    location: string,
    isEmailVerified: bool,
    otp: Option<string>,
    otpExpires: Option<Millis>,
    isOnboarded: bool,
    friends: seq<UserId>)

  /** `matchPassword`: false for an account without a (non-empty) password
      hash, such as a Google-only account; otherwise the bcrypt comparison,
      which is a parameter of the model. */
  predicate MatchPassword(u: User, entered: string, bcryptCompare: (string, string) -> bool)
    ensures !Truthy(u.password) ==> !MatchPassword(u, entered, bcryptCompare)
    ensures Truthy(u.password) ==>
      (MatchPassword(u, entered, bcryptCompare) <==> bcryptCompare(entered, u.password.value))
  {
    Truthy(u.password) && bcryptCompare(entered, u.password.value)
  }

  /** `User.findByIdAndUpdate(id, { $addToSet: { friends: friend } })`:
      the user with that id gets `friend` in their list unless it is there
      already; an unknown id changes nothing. */
  function AddFriend(us: seq<User>, id: UserId, friend: UserId): (r: seq<User>)
    ensures |r| == |us|
    ensures forall k :: 0 <= k < |us| ==> r[k] == us[k].(friends := r[k].friends)
    ensures forall k :: 0 <= k < |us| && us[k].id != id ==> r[k] == us[k]
    ensures forall k :: 0 <= k < |us| && us[k].id == id ==>
      friend in r[k].friends && forall x :: x in r[k].friends <==> x in us[k].friends || x == friend
    ensures forall k :: 0 <= k < |us| && NoDuplicates(us[k].friends) ==> NoDuplicates(r[k].friends)
  {
    seq(|us|, k requires 0 <= k < |us| =>
      if us[k].id == id then us[k].(friends := AddToSet(us[k].friends, friend)) else us[k])
  }

  /** Adding a friend who is already listed changes nothing, so repeating
      the update is harmless. */
  lemma AddFriendIdempotent(us: seq<User>, id: UserId, friend: UserId)
    ensures AddFriend(AddFriend(us, id, friend), id, friend) == AddFriend(us, id, friend)
  {
    var once := AddFriend(us, id, friend);
    var twice := AddFriend(once, id, friend);
    forall k | 0 <= k < |us| ensures twice[k] == once[k] {
      if us[k].id == id {
        assert friend in once[k].friends;
      }
    }
  }

  /** `User.findOne({ email })`: the position of the first user with this
      exact email. */
  function EmailIndex(us: seq<User>, email: string): (r: Option<nat>)
    ensures r.Some? ==> r.value < |us| && us[r.value].email == email
    ensures r.Some? ==> forall j :: 0 <= j < r.value ==> us[j].email != email
    ensures r.None? <==> forall j :: 0 <= j < |us| ==> us[j].email != email
  {
    FirstIndex(us, (u: User) => u.email == email)
  }

  class UserCollection {
    var users: seq<User>

    /** Ids are unique (they are document keys), emails are unique (the
        schema's unique index), and friend lists never repeat an id. */
    ghost predicate Valid()
      reads this
    {
      && (forall i, j :: 0 <= i < j < |users| ==> users[i].id != users[j].id)
      && (forall i, j :: 0 <= i < j < |users| ==> users[i].email != users[j].email)
      && (forall i :: 0 <= i < |users| ==> NoDuplicates(users[i].friends))
    }

    constructor ()
      ensures users == [] && Valid()
    {
      users := [];
    }

    /** `User.findById`: the position of the user with this id. */
    function IndexOfId(id: UserId): (r: Option<nat>)
      reads this
      ensures r.Some? ==> r.value < |users| && users[r.value].id == id
      ensures r.None? <==> forall j :: 0 <= j < |users| ==> users[j].id != id
    {
      FirstIndex(users, (u: User) => u.id == id)
    }

    /** The `$addToSet` update of one user's friend list. */
    method AddToFriends(id: UserId, friend: UserId)
      requires Valid()
      modifies this
      ensures users == AddFriend(old(users), id, friend)
      ensures Valid()
    {
      users := AddFriend(users, id, friend);
    }

    function FindById(id: UserId): (r: Option<User>)
      reads this
      ensures r.Some? <==> exists j :: 0 <= j < |users| && users[j].id == id
      ensures r.Some? ==> r.value in users && r.value.id == id
    {
      match IndexOfId(id)
      case None => None
      case Some(k) => Some(users[k])
    }
  }
}
