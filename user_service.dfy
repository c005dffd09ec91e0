/** The user service over the in-memory user store: its own validation, and
    friendship kept in both users' friend sets. */
module UserService {
  import opened Common
  import opened Model
  import opened InMemoryStorage

  // ---------------------------------------------------------------------------
  // validateUser
  // ---------------------------------------------------------------------------

  /** isValidEmail: present and containing an '@'. */
  predicate IsValidEmail(email: Option<string>) {
    email.Some? && '@' in email.value
  }

  /** isValidLogin: present and without a space; an empty login passes. */
  predicate IsValidLogin(login: Option<string>) {
    login.Some? && ' ' !in login.value
  }

  /** isValidBirthday: present and strictly before today. */
  predicate IsValidBirthday(birthday: Option<Date>, today: Date) {
    birthday.Some? && IsBefore(birthday.value, today)
  }

  /** validateUser: the checks run in field order and the first failure is
      reported. */
  function ValidateUser(user: Option<User>, today: Date): (r: Outcome)
    ensures r == Pass <==>
      user.Some? && IsValidEmail(user.value.email) && IsValidLogin(user.value.login) &&
      IsValidBirthday(user.value.birthday, today)
    ensures user.None? ==> r == Fail(Validation("User cannot be null"))
    ensures user.Some? && !IsValidEmail(user.value.email) ==> r == Fail(Validation("Invalid email"))
    ensures user.Some? && IsValidEmail(user.value.email) && !IsValidLogin(user.value.login) ==>
      r == Fail(Validation("Invalid login"))
    ensures user.Some? && IsValidEmail(user.value.email) && IsValidLogin(user.value.login) &&
            !IsValidBirthday(user.value.birthday, today) ==>
      r == Fail(Validation("Invalid birthday"))
  {
    if user.None? then Fail(Validation("User cannot be null"))
    else if !IsValidEmail(user.value.email) then Fail(Validation("Invalid email"))
    else if !IsValidLogin(user.value.login) then Fail(Validation("Invalid login"))
    else if !IsValidBirthday(user.value.birthday, today) then Fail(Validation("Invalid birthday"))
    else Pass
  }

  /** A user accepted by validateUser meets the declared constraints exactly
      when its login is not blank: an email with an '@' is never blank, and
      the birthday is in the past, but an empty login is let through. */
  lemma AcceptedUsersMeetDeclared(u: User, today: Date)
    requires ValidateUser(Some(u), today) == Pass
    ensures !IsBlank(u.login.value) <==> UserConstraintsHold(u, today)
  {
    var e := u.email.value;
    var k :| 0 <= k < |e| && e[k] == '@';
    assert !IsWhitespace(e[k]);
  }

  /** The counterexample: an empty login passes validateUser. */
  lemma EmptyLoginAccepted(today: Date)
    ensures var u := NewUser.(email := Some("@"), login := Some(""),
                              birthday := Some(Date(today.year - 1, today.month, today.day)));
      ValidateUser(Some(u), today) == Pass && !UserConstraintsHold(u, today)
  {
    var e := "@";
    assert e[0] == '@';
  }

  /** A birthday of today is refused: it is not strictly before today. */
  lemma BornTodayRefused(u: User, today: Date)
    requires u.birthday == Some(today)
    ensures ValidateUser(Some(u), today) != Pass
  {
  }

  // ---------------------------------------------------------------------------
  // create / update
  // ---------------------------------------------------------------------------

  /** create: a user failing validation is refused with nothing stored;
      otherwise the store assigns its id and defaults its name. */
  method Create(store: InMemoryUserStorage, user: Option<User>, today: Date) returns (r: Result<User>)
    requires store.Valid()
    modifies store
    ensures store.Valid()
    ensures ValidateUser(user, today) != Pass ==> r == Err(ValidateUser(user, today).error) && unchanged(store)
    ensures ValidateUser(user, today) == Pass ==>
      && r == Ok(WithDefaultName(user.value.(id := old(store.idGenerator) + 1)))
      && store.users == old(store.users)[r.value.id := r.value]
      && store.idGenerator == r.value.id
  {
    var check := ValidateUser(user, today);
    if check != Pass {
      return Err(check.error);
    }
    var created := store.Create(user.value);
    r := Ok(created);
  }

  /** update: the id is looked up first (a missing user is dereferenced), so
      an unknown id is NotFound even for an invalid user; then validation;
      nothing is written on any failure. */
  method Update(store: InMemoryUserStorage, user: Option<User>, today: Date) returns (r: Result<User>)
    requires store.Valid()
    modifies store
    ensures store.Valid()
    ensures user.None? ==> r == Err(NullDereference) && unchanged(store)
    ensures user.Some? && user.value.id !in old(store.users) ==>
      r == Err(NotFound(NotFoundMessage("User", user.value.id))) && unchanged(store)
    ensures user.Some? && user.value.id in old(store.users) && ValidateUser(user, today) != Pass ==>
      r == Err(ValidateUser(user, today).error) && unchanged(store)
    ensures user.Some? && user.value.id in old(store.users) && ValidateUser(user, today) == Pass ==>
      && r == Ok(WithDefaultName(user.value))
      && store.users == old(store.users)[user.value.id := r.value]
    ensures store.idGenerator == old(store.idGenerator)
  {
    if user.None? {
      return Err(NullDereference);
    }
    if store.GetUserById(user.value.id).None? {
      return Err(NotFound(NotFoundMessage("User", user.value.id)));
    }
    var check := ValidateUser(user, today);
    if check != Pass {
      return Err(check.error);
    }
    r := store.Update(user.value);
  }

  // ---------------------------------------------------------------------------
  // Friendship
  // ---------------------------------------------------------------------------

  /** Friendship between stored users goes both ways. */
  predicate SymmetricFriends(users: map<int, User>) {
    forall a, b :: a in users && b in users ==> (b in users[a].friends <==> a in users[b].friends)
  }

  /** Both users with the other added to their friends. */
  function FriendsAdded(users: map<int, User>, userId: int, friendId: int): (r: map<int, User>)
    requires userId in users && friendId in users && userId != friendId
    ensures r.Keys == users.Keys
    ensures friendId in r[userId].friends && userId in r[friendId].friends
    ensures r[userId].friends - {friendId} == users[userId].friends - {friendId}
    ensures r[friendId].friends - {userId} == users[friendId].friends - {userId}
    ensures r[userId].(friends := users[userId].friends) == users[userId]
    ensures r[friendId].(friends := users[friendId].friends) == users[friendId]
    ensures forall id :: id in users && id != userId && id != friendId ==> r[id] == users[id]
  {
    users[userId := users[userId].(friends := users[userId].friends + {friendId})]
         [friendId := users[friendId].(friends := users[friendId].friends + {userId})]
  }

  /** Both users with the other removed from their friends. */
  function FriendsRemoved(users: map<int, User>, userId: int, friendId: int): (r: map<int, User>)
    requires userId in users && friendId in users && userId != friendId
    ensures r.Keys == users.Keys
    ensures friendId !in r[userId].friends && userId !in r[friendId].friends
    ensures r[userId].friends + {friendId} == users[userId].friends + {friendId}
    ensures r[friendId].friends + {userId} == users[friendId].friends + {userId}
    ensures r[userId].(friends := users[userId].friends) == users[userId]
    ensures r[friendId].(friends := users[friendId].friends) == users[friendId]
    ensures forall id :: id in users && id != userId && id != friendId ==> r[id] == users[id]
  {
    users[userId := users[userId].(friends := users[userId].friends - {friendId})]
         [friendId := users[friendId].(friends := users[friendId].friends - {userId})]
  }

  /** Adding and removing a friendship both keep friendship symmetric. */
  lemma FriendshipStaysSymmetric(users: map<int, User>, userId: int, friendId: int)
    requires userId in users && friendId in users && userId != friendId
    requires SymmetricFriends(users)
    ensures SymmetricFriends(FriendsAdded(users, userId, friendId))
    ensures SymmetricFriends(FriendsRemoved(users, userId, friendId))
  {
    var added := FriendsAdded(users, userId, friendId);
    forall a, b | a in added && b in added ensures b in added[a].friends <==> a in added[b].friends {
      assert b in users[a].friends <==> a in users[b].friends;
    }
    var removed := FriendsRemoved(users, userId, friendId);
    forall a, b | a in removed && b in removed ensures b in removed[a].friends <==> a in removed[b].friends {
      assert b in users[a].friends <==> a in users[b].friends;
    }
  }

  /** Removing a friendship that was just added restores both users. */
  lemma FriendshipRoundTrip(users: map<int, User>, userId: int, friendId: int)
    requires userId in users && friendId in users && userId != friendId
    requires friendId !in users[userId].friends && userId !in users[friendId].friends
    ensures FriendsRemoved(FriendsAdded(users, userId, friendId), userId, friendId) == users
  {
    var back := FriendsRemoved(FriendsAdded(users, userId, friendId), userId, friendId);
    assert back[userId].friends == users[userId].friends;
    assert back[friendId].friends == users[friendId].friends;
  }

  /** The message for adding or removing oneself. */
  const SelfFriendMessage: string := "Cannot add/remove self as a friend"

  /** addFriend: refused for oneself before any lookup; then the user and the
      friend are looked up in that order; on success each gets the other as a
      friend, both written back through the store's update. */
  method AddFriend(store: InMemoryUserStorage, userId: int, friendId: int) returns (r: Outcome)
    requires store.Valid()
    modifies store
    ensures store.Valid()
    ensures userId == friendId ==> r == Fail(FriendsError(SelfFriendMessage)) && unchanged(store)
    ensures userId != friendId && userId !in old(store.users) ==>
      r == Fail(NotFound(NotFoundMessage("User", userId))) && unchanged(store)
    ensures userId != friendId && userId in old(store.users) && friendId !in old(store.users) ==>
      r == Fail(NotFound(NotFoundMessage("User", friendId))) && unchanged(store)
    ensures userId != friendId && userId in old(store.users) && friendId in old(store.users) ==>
      r == Pass && store.users == FriendsAdded(old(store.users), userId, friendId)
    ensures SymmetricFriends(old(store.users)) ==> SymmetricFriends(store.users)
    ensures store.idGenerator == old(store.idGenerator)
  {
    if userId == friendId {
      return Fail(FriendsError(SelfFriendMessage));
    }
    var user := store.GetUserById(userId);
    if user.None? {
      return Fail(NotFound(NotFoundMessage("User", userId)));
    }
    var friend := store.GetUserById(friendId);
    if friend.None? {
      return Fail(NotFound(NotFoundMessage("User", friendId)));
    }
    ghost var before := store.users;
    if SymmetricFriends(before) {
      FriendshipStaysSymmetric(before, userId, friendId);
    }
    var u := user.value.(friends := user.value.friends + {friendId});
    var f := friend.value.(friends := friend.value.friends + {userId});
    var _ := store.Update(u);
    var _ := store.Update(f);
    r := Pass;
  }

  /** deleteFriend: the same checks in the same order; on success each loses
      the other as a friend, a no-op for a pair that was not friends. */
  method DeleteFriend(store: InMemoryUserStorage, userId: int, friendId: int) returns (r: Outcome)
    requires store.Valid()
    modifies store
    ensures store.Valid()
    ensures userId == friendId ==> r == Fail(FriendsError(SelfFriendMessage)) && unchanged(store)
    ensures userId != friendId && userId !in old(store.users) ==>
      r == Fail(NotFound(NotFoundMessage("User", userId))) && unchanged(store)
    ensures userId != friendId && userId in old(store.users) && friendId !in old(store.users) ==>
      r == Fail(NotFound(NotFoundMessage("User", friendId))) && unchanged(store)
    ensures userId != friendId && userId in old(store.users) && friendId in old(store.users) ==>
      r == Pass && store.users == FriendsRemoved(old(store.users), userId, friendId)
    ensures SymmetricFriends(old(store.users)) ==> SymmetricFriends(store.users)
    ensures store.idGenerator == old(store.idGenerator)
  {
    if userId == friendId {
      return Fail(FriendsError(SelfFriendMessage));
    }
    var user := store.GetUserById(userId);
    if user.None? {
      return Fail(NotFound(NotFoundMessage("User", userId)));
    }
    var friend := store.GetUserById(friendId);
    if friend.None? {
      return Fail(NotFound(NotFoundMessage("User", friendId)));
    }
    ghost var before := store.users;
    if SymmetricFriends(before) {
      FriendshipStaysSymmetric(before, userId, friendId);
    }
    var u := user.value.(friends := user.value.friends - {friendId});
    var f := friend.value.(friends := friend.value.friends - {userId});
    var _ := store.Update(u);
    var _ := store.Update(f);
    r := Pass;
  }

  /** getFriends: the stored users among the user's friend ids, each once;
      ids with no stored user are dropped. */
  function GetFriends(store: InMemoryUserStorage, userId: int): (r: Result<seq<User>>)
    reads store
    requires store.Valid()
    ensures userId !in store.users <==> r.Err?
    ensures r.Err? ==> r.error == NotFound(NotFoundMessage("User", userId))
    ensures r.Ok? ==> OnePerId(r.value)
    ensures r.Ok? ==> forall i :: 0 <= i < |r.value| ==> r.value[i].id in store.users && r.value[i] == store.users[r.value[i].id]
    ensures r.Ok? ==> forall x :: x in UserIds(r.value) <==> x in store.users[userId].friends && x in store.users
  {
    if userId !in store.users then Err(NotFound(NotFoundMessage("User", userId)))
    else Ok(store.UsersWithIds(store.users[userId].friends))
  }

  /** getMutualFriends: both users are looked up, first the one, then the
      other; the result is the stored users whose ids are in both friend sets,
      each once. */
  function GetMutualFriends(store: InMemoryUserStorage, userId: int, otherId: int): (r: Result<seq<User>>)
    reads store
    requires store.Valid()
    ensures userId !in store.users ==> r == Err(NotFound(NotFoundMessage("User", userId)))
    ensures userId in store.users && otherId !in store.users ==> r == Err(NotFound(NotFoundMessage("User", otherId)))
    ensures userId in store.users && otherId in store.users ==> r.Ok?
    ensures r.Ok? ==> OnePerId(r.value)
    ensures r.Ok? ==> forall i :: 0 <= i < |r.value| ==> r.value[i].id in store.users && r.value[i] == store.users[r.value[i].id]
    ensures r.Ok? ==> forall x :: x in UserIds(r.value) <==>
      x in store.users[userId].friends && x in store.users[otherId].friends && x in store.users
  {
    if userId !in store.users then Err(NotFound(NotFoundMessage("User", userId)))
    else if otherId !in store.users then Err(NotFound(NotFoundMessage("User", otherId)))
    else Ok(store.UsersWithIds(store.users[userId].friends * store.users[otherId].friends))
  }

  /** Mutual friends do not depend on which user is named first. */
  lemma MutualFriendsSymmetric(store: InMemoryUserStorage, userId: int, otherId: int)
    requires store.Valid() && userId in store.users && otherId in store.users
    ensures GetMutualFriends(store, userId, otherId) == GetMutualFriends(store, otherId, userId)
  {
    assert store.users[userId].friends * store.users[otherId].friends ==
           store.users[otherId].friends * store.users[userId].friends;
  }
}
