/** The friendship handlers (backend/src/controllers/user.controller.js):
    sending and accepting friend requests, the request listings,
    recommendations and mutual friends. The FriendRequest model file is not
    part of this model: a request is a sender, a recipient and a status,
    `pending` when created, `accepted` once accepted. */
module Friends {
  import opened Common
  import opened Users

  datatype Status = Pending | Accepted

  datatype FriendRequest = FriendRequest(id: RequestId, sender: UserId, recipient: UserId, status: Status)

  datatype Failure =
    | SelfRequest | RecipientNotFound | AlreadyFriends | RequestExists
    | RequestNotFound | NotRecipient | InternalError

  /** An error reply: HTTP status and what went wrong. */
  datatype FriendError = FriendError(status: nat, failure: Failure)

  /** A property read on a missing user throws; the handler answers 500. */
  const Internal := FriendError(500, InternalError)

  /** The request joins a and b, in either direction. */
  predicate Between(r: FriendRequest, a: UserId, b: UserId) {
    (r.sender == a && r.recipient == b) || (r.sender == b && r.recipient == a)
  }

  /** At most one request per unordered pair of users. */
  predicate OnePerPair(rs: seq<FriendRequest>) {
    forall i, j :: 0 <= i < j < |rs| ==> !Between(rs[i], rs[j].sender, rs[j].recipient)
  }

  class RequestCollection {
    var requests: seq<FriendRequest>

    ghost predicate Valid()
      reads this
    {
      forall i, j :: 0 <= i < j < |requests| ==> requests[i].id != requests[j].id
    }

    constructor ()
      ensures requests == [] && Valid()
    {
      requests := [];
    }

    /** `FriendRequest.findById`. */
    function IndexOf(id: RequestId): (r: Option<nat>)
      reads this
      ensures r.Some? ==> r.value < |requests| && requests[r.value].id == id
      ensures r.None? <==> forall j :: 0 <= j < |requests| ==> requests[j].id != id
    {
      FirstIndex(requests, (q: FriendRequest) => q.id == id)
    }
  }

  // ------------------------------------------------------------- send

  /** The guards of sendFriendRequest, in order: a request to oneself
      (400), an unknown recipient (404), a recipient who already lists the
      sender as a friend (400), a request between the two in either
      direction, whatever its status (400). None when all pass. */
  function SendRefusal(users: seq<User>, rs: seq<FriendRequest>, me: UserId, recipient: UserId): (r: Option<FriendError>)
    ensures r.None? <==>
      && me != recipient
      && (exists k :: 0 <= k < |users| && users[k].id == recipient && me !in users[k].friends
                      && forall j :: 0 <= j < k ==> users[j].id != recipient)
      && (forall i :: 0 <= i < |rs| ==> !Between(rs[i], me, recipient))
    ensures me == recipient ==> r == Some(FriendError(400, SelfRequest))
    ensures me != recipient && (forall k :: 0 <= k < |users| ==> users[k].id != recipient) ==>
      r == Some(FriendError(404, RecipientNotFound))
    ensures me != recipient && (exists k :: 0 <= k < |users| && users[k].id == recipient && me in users[k].friends
                                            && forall j :: 0 <= j < k ==> users[j].id != recipient) ==>
      r == Some(FriendError(400, AlreadyFriends))
    ensures me != recipient && (exists k :: 0 <= k < |users| && users[k].id == recipient && me !in users[k].friends
                                            && forall j :: 0 <= j < k ==> users[j].id != recipient)
            && (exists i :: 0 <= i < |rs| && Between(rs[i], me, recipient)) ==>
      r == Some(FriendError(400, RequestExists))
    ensures r.Some? ==> r.value.status in {400, 404}
  {
    if me == recipient then Some(FriendError(400, SelfRequest))
    else match FirstIndex(users, (u: User) => u.id == recipient)
      case None => Some(FriendError(404, RecipientNotFound))
      case Some(k) =>
        if me in users[k].friends then Some(FriendError(400, AlreadyFriends))
        else if FirstIndex(rs, (q: FriendRequest) => Between(q, me, recipient)).Some? then Some(FriendError(400, RequestExists))
        else None
  }

  /** A request that passes the guards keeps one request per pair. */
  lemma SendKeepsOnePerPair(users: seq<User>, rs: seq<FriendRequest>, me: UserId, recipient: UserId, id: RequestId)
    requires OnePerPair(rs)
    requires SendRefusal(users, rs, me, recipient).None?
    ensures OnePerPair(rs + [FriendRequest(id, me, recipient, Pending)])
  {
    var rs' := rs + [FriendRequest(id, me, recipient, Pending)];
    forall i, j | 0 <= i < j < |rs'| ensures !Between(rs'[i], rs'[j].sender, rs'[j].recipient) {
      if j == |rs| {
        assert rs'[i] == rs[i];
        assert !Between(rs[i], me, recipient);
      }
    }
  }

  /** sendFriendRequest: when every guard passes, one pending request from
      the caller to the recipient is stored; `id` stands for its fresh
      ObjectId. Recipients are looked up by id, which the user collection
      keeps unique. */
  method SendFriendRequest(users: UserCollection, reqs: RequestCollection, me: UserId, recipient: UserId, id: RequestId)
    returns (r: Result<FriendRequest, FriendError>)
    requires users.Valid() && reqs.Valid()
    requires forall i :: 0 <= i < |reqs.requests| ==> reqs.requests[i].id != id
    modifies reqs
    ensures SendRefusal(users.users, old(reqs.requests), me, recipient).Some? ==>
      r == Err(SendRefusal(users.users, old(reqs.requests), me, recipient).value) && reqs.requests == old(reqs.requests)
    ensures SendRefusal(users.users, old(reqs.requests), me, recipient).None? ==>
      r == Ok(FriendRequest(id, me, recipient, Pending)) && reqs.requests == old(reqs.requests) + [r.value]
    ensures OnePerPair(old(reqs.requests)) ==> OnePerPair(reqs.requests)
    ensures reqs.Valid()
  {
    if me == recipient {
      return Err(FriendError(400, SelfRequest));
    }
    var k := users.IndexOfId(recipient);
    if k.None? {
      return Err(FriendError(404, RecipientNotFound));
    }
    if me in users.users[k.value].friends {
      return Err(FriendError(400, AlreadyFriends));
    }
    if FirstIndex(reqs.requests, (q: FriendRequest) => Between(q, me, recipient)).Some? {
      return Err(FriendError(400, RequestExists));
    }
    var request := FriendRequest(id, me, recipient, Pending);
    if OnePerPair(reqs.requests) {
      SendKeepsOnePerPair(users.users, reqs.requests, me, recipient, id);
    }
    reqs.requests := reqs.requests + [request];
    r := Ok(request);
  }

  // ----------------------------------------------------------- accept

  /** The two `$addToSet` updates of acceptFriendRequest: each party lists
      the other, only friend lists change, and nobody else is touched. */
  function Befriend(us: seq<User>, sender: UserId, recipient: UserId): (r: seq<User>)
    ensures |r| == |us|
    ensures forall k :: 0 <= k < |us| ==>
      && r[k] == us[k].(friends := r[k].friends)
      && (us[k].id == sender ==> recipient in r[k].friends)
      && (us[k].id == recipient ==> sender in r[k].friends)
      && (us[k].id != sender && us[k].id != recipient ==> r[k] == us[k])
      && (NoDuplicates(us[k].friends) ==> NoDuplicates(r[k].friends))
  {
    var mid := AddFriend(us, sender, recipient);
    var fin := AddFriend(mid, recipient, sender);
    forall k | 0 <= k < |us|
      ensures fin[k] == us[k].(friends := fin[k].friends)
      ensures us[k].id == sender ==> recipient in fin[k].friends
    {
      assert mid[k].id == us[k].id;
    }
    fin
  }

  /** Accepting the same request again changes no friend list. */
  lemma BefriendIdempotent(us: seq<User>, sender: UserId, recipient: UserId)
    ensures Befriend(Befriend(us, sender, recipient), sender, recipient) == Befriend(us, sender, recipient)
  {
    var once := Befriend(us, sender, recipient);
    var twice := AddFriend(AddFriend(once, sender, recipient), recipient, sender);
    var mid := AddFriend(us, sender, recipient);
    forall k | 0 <= k < |us| ensures twice[k] == once[k] {
      assert mid[k].id == us[k].id;
      if us[k].id == sender {
        assert recipient in once[k].friends;
      }
      if us[k].id == recipient {
        assert sender in once[k].friends;
      }
    }
  }

  /** acceptFriendRequest: 404 for an unknown request, 403 unless the
      caller is its recipient; otherwise the request becomes accepted and
      the two users are added to each other's lists. A party whose user
      document is gone is skipped, as `findByIdAndUpdate` does. */
  method AcceptFriendRequest(users: UserCollection, reqs: RequestCollection, me: UserId, requestId: RequestId)
    returns (r: Result<(), FriendError>)
    requires users.Valid() && reqs.Valid()
    modifies users, reqs
    ensures old(reqs.IndexOf(requestId)).None? ==> r == Err(FriendError(404, RequestNotFound))
    ensures old(reqs.IndexOf(requestId)).Some? ==>
      var i := old(reqs.IndexOf(requestId)).value;
      var q := old(reqs.requests)[i];
      && (r.Ok? <==> q.recipient == me)
      && (r.Err? ==> r == Err(FriendError(403, NotRecipient)))
      && (r.Ok? ==> reqs.requests == old(reqs.requests)[i := q.(status := Accepted)]
                    && users.users == Befriend(old(users.users), q.sender, q.recipient))
    ensures r.Err? ==> reqs.requests == old(reqs.requests) && users.users == old(users.users)
    ensures users.Valid() && reqs.Valid()
  {
    var i := reqs.IndexOf(requestId);
    if i.None? {
      return Err(FriendError(404, RequestNotFound));
    }
    var q := reqs.requests[i.value];
    if q.recipient != me {
      return Err(FriendError(403, NotRecipient));
    }
    reqs.requests := reqs.requests[i.value := q.(status := Accepted)];
    users.AddToFriends(q.sender, q.recipient);
    users.AddToFriends(q.recipient, q.sender);
    r := Ok(());
  }

  // --------------------------------------------------------- listings

  /** getFriendRequests, first list: pending requests sent to me. */
  function IncomingRequests(rs: seq<FriendRequest>, me: UserId): (r: seq<FriendRequest>)
    ensures forall q :: q in r <==> q in rs && q.recipient == me && q.status == Pending
    ensures |r| <= |rs|
  {
    Filter(rs, (q: FriendRequest) => q.recipient == me && q.status == Pending)
  }

  /** getFriendRequests, second list: my requests that were accepted. */
  function AcceptedRequests(rs: seq<FriendRequest>, me: UserId): (r: seq<FriendRequest>)
    ensures forall q :: q in r <==> q in rs && q.sender == me && q.status == Accepted
    ensures |r| <= |rs|
  {
    Filter(rs, (q: FriendRequest) => q.sender == me && q.status == Accepted)
  }

  /** getOutgoingFriendReqs: my requests still pending. */
  function OutgoingRequests(rs: seq<FriendRequest>, me: UserId): (r: seq<FriendRequest>)
    ensures forall q :: q in r <==> q in rs && q.sender == me && q.status == Pending
    ensures |r| <= |rs|
  {
    Filter(rs, (q: FriendRequest) => q.sender == me && q.status == Pending)
  }

  /** A pending request between two different users shows up in the
      sender's outgoing list and the recipient's incoming list and in
      neither party's other list; an accepted one only in the sender's
      accepted list. */
  lemma ListingsClassify(rs: seq<FriendRequest>, q: FriendRequest)
    requires q in rs && q.sender != q.recipient
    ensures q.status == Pending ==>
      && q in OutgoingRequests(rs, q.sender) && q in IncomingRequests(rs, q.recipient)
      && q !in IncomingRequests(rs, q.sender) && q !in OutgoingRequests(rs, q.recipient)
      && q !in AcceptedRequests(rs, q.sender)
    ensures q.status == Accepted ==>
      && q in AcceptedRequests(rs, q.sender)
      && q !in IncomingRequests(rs, q.recipient) && q !in OutgoingRequests(rs, q.sender)
  {
  }

  /** Accepting moves a request out of the recipient's incoming list and
      the sender's outgoing list into the sender's accepted list. */
  lemma AcceptMovesRequest(rs: seq<FriendRequest>, i: nat)
    requires i < |rs| && rs[i].status == Pending
    ensures rs[i] in IncomingRequests(rs, rs[i].recipient) && rs[i] in OutgoingRequests(rs, rs[i].sender)
    ensures var rs' := rs[i := rs[i].(status := Accepted)];
      && rs'[i] in AcceptedRequests(rs', rs[i].sender)
      && rs'[i] !in IncomingRequests(rs', rs[i].recipient)
      && rs'[i] !in OutgoingRequests(rs', rs[i].sender)
  {
    var rs' := rs[i := rs[i].(status := Accepted)];
    assert rs'[i] in rs';
  }

  // -------------------------------------------------- recommendations

  /** getRecommendedUsers: onboarded users other than me and my friends,
      in collection order. */
  function Recommended(users: seq<User>, me: User): (r: seq<User>)
    ensures forall u :: u in r <==> u in users && u.id != me.id && u.id !in me.friends && u.isOnboarded
  {
    Filter(users, (u: User) => u.id != me.id && u.id !in me.friends && u.isOnboarded)
  }

  /** Once a request is accepted, neither party is recommended to the
      other any more. */
  lemma AcceptedNotRecommended(us: seq<User>, k: nat, l: nat)
    requires k < |us| && l < |us|
    ensures var us' := Befriend(us, us[k].id, us[l].id);
      && (forall u :: u in Recommended(us', us'[k]) ==> u.id != us[l].id)
      && (forall u :: u in Recommended(us', us'[l]) ==> u.id != us[k].id)
  {
  }

  // --------------------------------------------------- mutual friends

  /** The `currentUserFriends.filter(...)` of getMutualFriends: my friends
      that the target also lists, in my order. */
  function MutualFriendIds(mine: seq<UserId>, theirs: seq<UserId>): (r: seq<UserId>)
    ensures forall x :: x in r <==> x in mine && x in theirs
  {
    Filter(mine, (x: UserId) => x in theirs)
  }

  /** Mutual friends are common to both lists, as sets the same whichever
      side asks, and repeat nothing when my list repeats nothing. */
  lemma MutualFriendsProperties(mine: seq<UserId>, theirs: seq<UserId>)
    ensures forall x :: x in MutualFriendIds(mine, theirs) <==> x in MutualFriendIds(theirs, mine)
    ensures |MutualFriendIds(mine, theirs)| <= |mine|
    ensures NoDuplicates(mine) ==> NoDuplicates(MutualFriendIds(mine, theirs))
  {
    if NoDuplicates(mine) {
      FilterNoDuplicates(mine, (x: UserId) => x in theirs);
    }
  }

  /** Mutual friends keep my order: the list is taken friend by friend,
      each of mine kept exactly when the target lists it. */
  lemma MutualFriendIdsInMyOrder(a: seq<UserId>, b: seq<UserId>, theirs: seq<UserId>)
    ensures MutualFriendIds(a + b, theirs) == MutualFriendIds(a, theirs) + MutualFriendIds(b, theirs)
    ensures forall x :: MutualFriendIds([x], theirs) == if x in theirs then [x] else []
  {
    FilterConcat(a, b, (x: UserId) => x in theirs);
    forall x ensures MutualFriendIds([x], theirs) == if x in theirs then [x] else [] {
      assert [x][1..] == [];
    }
  }

  /** getMutualFriends: both users must exist (a missing one makes
      `.friends` throw: 500); the reply is the users whose id is among the
      mutual ids, in collection order (`find({ _id: { $in: ids } })`). */
  method GetMutualFriends(users: UserCollection, me: UserId, target: UserId) returns (r: Result<seq<User>, FriendError>)
    ensures users.FindById(me).None? || users.FindById(target).None? ==> r == Err(Internal)
    ensures users.FindById(me).Some? && users.FindById(target).Some? ==>
      var ids := MutualFriendIds(users.FindById(me).value.friends, users.FindById(target).value.friends);
      r.Ok? && forall u :: u in r.value <==> u in users.users && u.id in ids
  {
    var current := users.FindById(me);
    if current.None? {
      return Err(Internal);
    }
    var other := users.FindById(target);
    if other.None? {
      return Err(Internal);
    }
    var ids := MutualFriendIds(current.value.friends, other.value.friends);
    r := Ok(Filter(users.users, (u: User) => u.id in ids));
  }
}
