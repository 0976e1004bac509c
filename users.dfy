/** UsersService: sign-up with its availability checks, and the profile
    update with its nickname check and interest-link reconciliation. */
module Users {
  import opened Common
  import opened InterestLinks

  datatype User = User(email: string, nickname: string, bio: Option<string>)

  /** What updateUser returns: the stored user and the interests the user is
      linked to, in table order. */
  datatype Profile = Profile(id: int, email: string, nickname: string, bio: Option<string>, interests: seq<int>)

  function InterestIdsOf(links: seq<Link>): (r: seq<int>)
    ensures |r| == |links| && forall k :: 0 <= k < |links| ==> r[k] == links[k].interestId
  {
    seq(|links|, k requires 0 <= k < |links| => links[k].interestId)
  }

  /** The user, interest and user-interest tables. */
  class UserDb {
    var users: map<int, User>
    var nextUserId: int
    var interests: seq<int>
    var links: seq<Link>
    var nextLinkId: nat

    /** The tables' keys: user ids are positive and below the next id,
        nicknames and e-mail addresses are unique, interest ids ascend, link
        ids ascend below the next id, one link per (user, interest). */
    ghost predicate Valid()
      reads this
    {
      && nextUserId >= 1
      && (forall id :: id in users ==> 1 <= id < nextUserId)
      && (forall a, b :: a in users && b in users && a != b ==> users[a].nickname != users[b].nickname)
      && (forall a, b :: a in users && b in users && a != b ==> users[a].email != users[b].email)
      && Ascending(interests)
      && IdsAscending(links) && IdsBelow(links, nextLinkId)
      && OneLinkPerInterest(links)
    }

    constructor (interestTable: seq<int>)
      requires Ascending(interestTable)
      ensures Valid()
      ensures users == map[] && interests == interestTable && links == []
    {
      users := map[];
      nextUserId := 1;
      interests := interestTable;
      links := [];
      nextLinkId := 0;
    }

    /** isNicknameAvailable: no user holds the nickname. */
    function IsNicknameAvailable(nickname: string): (r: bool)
      reads this
      ensures r <==> forall id :: id in users ==> users[id].nickname != nickname
    {
      !exists id :: id in users && users[id].nickname == nickname
    }

    /** isEmailAvailable: no user holds the address. */
    function IsEmailAvailable(email: string): (r: bool)
      reads this
      ensures r <==> forall id :: id in users ==> users[id].email != email
    {
      !exists id :: id in users && users[id].email == email
    }

    /** registerUser: the address is checked before the nickname; either one
        taken is a conflict and creates nothing; otherwise a user without a
        bio is created under the next id. */
    method RegisterUser(nickname: string, email: string) returns (r: Result<int>)
      requires Valid()
      modifies this
      ensures Valid()
      ensures interests == old(interests) && links == old(links) && nextLinkId == old(nextLinkId)
      ensures !old(IsEmailAvailable(email)) ==>
        r == Err(Conflict(EmailTaken)) && users == old(users) && nextUserId == old(nextUserId)
      ensures old(IsEmailAvailable(email)) && !old(IsNicknameAvailable(nickname)) ==>
        r == Err(Conflict(NicknameTaken)) && users == old(users) && nextUserId == old(nextUserId)
      ensures old(IsEmailAvailable(email)) && old(IsNicknameAvailable(nickname)) ==>
        && r == Ok(old(nextUserId)) && old(nextUserId) !in old(users)
        && users == old(users)[old(nextUserId) := User(email, nickname, None)]
        && nextUserId == old(nextUserId) + 1
    {
      if !IsEmailAvailable(email) {
        return Err(Conflict(EmailTaken));
      }
      if !IsNicknameAvailable(nickname) {
        return Err(Conflict(NicknameTaken));
      }
      var id := nextUserId;
      users := users[id := User(email, nickname, None)];
      nextUserId := nextUserId + 1;
      r := Ok(id);
    }

    /** Another user than `userId` holds `nickname`. */
    predicate HeldByOther(nickname: string, userId: int)
      reads this
    {
      exists id :: id in users && id != userId && users[id].nickname == nickname
    }

    /** updateUser. A missing id is an internal error; a non-empty nickname
        held by someone else is a conflict; updating a user that does not
        exist, or to the empty nickname someone else holds, fails in the
        store (an internal error). Otherwise the nickname and bio given are
        stored and, when a non-empty interest list is given, the user's
        links are reconciled with it. */
    method UpdateUser(userId: int, nickname: Option<string>, bio: Option<string>, requested: Option<seq<int>>)
      returns (r: Result<Profile>)
      requires Valid()
      modifies this
      ensures Valid()
      ensures interests == old(interests) && nextUserId == old(nextUserId)
      ensures userId == 0 ==> r == Err(Internal) && unchanged(this)
      ensures userId != 0 && nickname.Some? && nickname.value != [] && old(HeldByOther(nickname.value, userId))
        ==> r == Err(Conflict(NicknameTaken)) && unchanged(this)
      ensures userId != 0 && userId !in old(users) && !(nickname.Some? && old(HeldByOther(nickname.value, userId)))
        ==> r == Err(Internal) && unchanged(this)
      ensures userId != 0 && nickname == Some([]) && old(HeldByOther([], userId)) ==> r == Err(Internal) && unchanged(this)
      ensures r.Ok? <==> userId != 0 && userId in old(users) && !(nickname.Some? && old(HeldByOther(nickname.value, userId)))
      ensures r.Ok? ==>
        && users == old(users)[userId := old(users)[userId].(
             nickname := nickname.GetOr(old(users)[userId].nickname),
             bio := if bio.Some? then bio else old(users)[userId].bio)]
        && (if requested.Some? && |requested.value| > 0
            then links == Reconcile(old(links), userId, old(interests), requested.value, old(nextLinkId))
            else links == old(links) && nextLinkId == old(nextLinkId))
        && r.value == Profile(userId, users[userId].email, users[userId].nickname, users[userId].bio,
                              InterestIdsOf(UserLinks(links, userId)))
    {
      if userId == 0 {
        return Err(Internal);
      }
      if nickname.Some? && nickname.value != [] && HeldByOther(nickname.value, userId) {
        return Err(Conflict(NicknameTaken));
      }
      if userId !in users || (nickname.Some? && HeldByOther(nickname.value, userId)) {
        return Err(Internal);
      }
      var user := users[userId];
      users := users[userId := user.(nickname := nickname.GetOr(user.nickname),
                                      bio := if bio.Some? then bio else user.bio)];
      if requested.Some? && |requested.value| > 0 {
        ReconcileInterests(userId, requested.value);
      }
      var mine := UserLinks(links, userId);
      r := Ok(Profile(userId, users[userId].email, users[userId].nickname, users[userId].bio, InterestIdsOf(mine)));
    }

    /** The interest step of updateUser: the links to delete go in one
        `deleteMany` (skipped when there are none), then the interests to add
        are created. */
    method ReconcileInterests(userId: int, requested: seq<int>)
      requires Valid()
      modifies this
      ensures Valid()
      ensures users == old(users) && nextUserId == old(nextUserId) && interests == old(interests)
      ensures links == Reconcile(old(links), userId, interests, requested, old(nextLinkId))
    {
      ghost var links0, next0 := links, nextLinkId;
      var valid := ValidIds(interests, requested);
      var current := UserLinks(links, userId);
      var toDelete := ToDelete(current, valid);
      var toAdd := ToAdd(valid, CurrentIds(current));
      if |toDelete| > 0 {
        links := DropIds(links, toDelete);
      } else {
        DropNothing(links, toDelete);
      }
      assert links == DropIds(links0, toDelete);
      CreateLinks(userId, toAdd);
      assert links == Reconcile(links0, userId, interests, requested, next0);
      ReconcileKeepsTable(links0, userId, interests, requested, next0);
    }

    /** One `userInterest.create` per interest, in order, each taking the
        next link id. */
    method CreateLinks(userId: int, toAdd: seq<int>)
      modifies this
      ensures links == old(links) + NewLinks(userId, toAdd, old(nextLinkId))
      ensures nextLinkId == old(nextLinkId) + |toAdd|
      ensures users == old(users) && nextUserId == old(nextUserId) && interests == old(interests)
    {
      ghost var kept, next0 := links, nextLinkId;
      assert NewLinks(userId, toAdd[..0], next0) == [];
      assert links == kept + [];
      for k := 0 to |toAdd|
        invariant links == kept + NewLinks(userId, toAdd[..k], next0)
        invariant nextLinkId == next0 + k
        invariant users == old(users) && nextUserId == old(nextUserId) && interests == old(interests)
      {
        NewLinksPrefix(userId, toAdd, k, next0);
        ghost var made := NewLinks(userId, toAdd[..k], next0);
        var link := Link(nextLinkId, userId, toAdd[k]);
        assert (kept + made) + [link] == kept + (made + [link]);
        links := links + [link];
        nextLinkId := nextLinkId + 1;
      }
      assert toAdd[..|toAdd|] == toAdd;
    }
  }

  lemma {:induction false} DropNothing(links: seq<Link>, ids: seq<nat>)
    requires ids == []
    ensures DropIds(links, ids) == links
  {
    if |links| > 0 {
      assert links == links[..|links| - 1] + [links[|links| - 1]];
      DropNothing(links[..|links| - 1], ids);
    }
  }
}
