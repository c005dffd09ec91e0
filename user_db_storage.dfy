/** The database-backed user store: validation with name defaulting, the
    Users rows, and the directed friendship edges of user_friends. */
module UserDbStorage {
  import opened Common
  import opened Model
  import opened Database

  // ---------------------------------------------------------------------------
  // validate
  // ---------------------------------------------------------------------------

  /** What validate lets through: an email with an '@', a login without a
      space, both present and not blank, and a birthday that is present and
      not after today. */
  predicate Storable(u: User, today: Date) {
    && u.email.Some? && !IsBlank(u.email.value) && '@' in u.email.value
    && u.login.Some? && !IsBlank(u.login.value) && ' ' !in u.login.value
    && u.birthday.Some? && !IsBefore(today, u.birthday.value)
  }

  /** validate: the name is defaulted to the login first; then the email, the
      login and the birthday are checked in that order, the first failure
      being reported.  A missing email or login is dereferenced. */
  function Validate(u: User, today: Date): (r: Result<User>)
    ensures r.Ok? <==> Storable(WithDefaultName(u), today)
    ensures r.Ok? ==> r.value == WithDefaultName(u)
    ensures u.email.None? ==> r == Err(NullDereference)
    ensures u.email.Some? && (IsBlank(u.email.value) || '@' !in u.email.value) ==>
      r == Err(Validation("Invalid email address"))
    ensures u.email.Some? && !IsBlank(u.email.value) && '@' in u.email.value ==>
      && (u.login.None? ==> r == Err(NullDereference))
      && (u.login.Some? && (IsBlank(u.login.value) || ' ' in u.login.value) ==>
            r == Err(Validation("Login is empty or contains spaces")))
    ensures u.email.Some? && !IsBlank(u.email.value) && '@' in u.email.value &&
            u.login.Some? && !IsBlank(u.login.value) && ' ' !in u.login.value ==>
      && (u.birthday.None? ==> r == Err(Validation("Date of birth is not specified")))
      && (u.birthday.Some? && IsBefore(today, u.birthday.value) ==>
            r == Err(Validation("Invalid date of birth")))
  {
    var named := WithDefaultName(u);
    if named.email.None? then Err(NullDereference)
    else if IsBlank(named.email.value) || '@' !in named.email.value then
      Err(Validation("Invalid email address"))
    else if named.login.None? then Err(NullDereference)
    else if IsBlank(named.login.value) || ' ' in named.login.value then
      Err(Validation("Login is empty or contains spaces"))
    else if named.birthday.None? then Err(Validation("Date of birth is not specified"))
    else if IsBefore(today, named.birthday.value) then Err(Validation("Invalid date of birth"))
    else Ok(named)
  }

  /** A validated user meets the declared constraints, except that a birthday
      equal to today passes validate although it is not in the past; and its
      name is never blank. */
  lemma ValidatedUsersMeetConstraints(u: User, today: Date)
    requires Validate(u, today).Ok?
    ensures var v := Validate(u, today).value;
      && v.name.Some? && !IsBlank(v.name.value)
      && (v.birthday.value != today ==> UserConstraintsHold(v, today))
      && (v.birthday.value == today ==> !UserConstraintsHold(v, today))
  {
    var v := Validate(u, today).value;
    var b := v.birthday.value;
    if b != today {
      assert IsBefore(b, today) by {
        assert !IsBefore(today, b);
        assert b.year != today.year || b.month != today.month || b.day != today.day;
      }
    }
  }

  /** Conversely, a user meeting the declared constraints, with a birthday, an
      '@' in the email and no space in the login, passes validate. */
  lemma ConstrainedUsersPass(u: User, today: Date)
    requires UserConstraintsHold(u, today) && u.birthday.Some?
    requires '@' in u.email.value && ' ' !in u.login.value
    ensures Validate(u, today).Ok?
  {
    var b := u.birthday.value;
    assert !IsBefore(today, b);
  }

  // ---------------------------------------------------------------------------
  // Rows
  // ---------------------------------------------------------------------------

  /** The Users row written for a validated user. */
  function RowOfUser(u: User): UserRow
    requires u.email.Some? && u.login.Some? && u.name.Some? && u.birthday.Some?
  {
    UserRow(u.login.value, u.email.value, u.name.value, u.birthday.value)
  }

  /** mapRowToUser: the row's columns and no friends. */
  function UserFromRow(id: int, row: UserRow): User {
    NewUser.(id := id, email := Some(row.email), login := Some(row.login),
             name := Some(row.name), birthday := Some(row.birthday))
  }

  /** The targets of a user's outgoing user_friends edges. */
  function OutEdges(friendships: map<(int, int), string>, userId: int): set<int> {
    set p | p in friendships && p.0 == userId :: p.1
  }

  // ---------------------------------------------------------------------------
  // getUserById
  // ---------------------------------------------------------------------------

  /** getUserById with loadFriends: absent exactly when no row has the id;
      otherwise the row, with as friends the users its outgoing edges join. */
  function GetUserById(db: Database, id: int): (r: Option<User>)
    reads db
    ensures r.Some? <==> id in db.users
    ensures r.Some? ==> r.value.(friends := {}) == UserFromRow(id, db.users[id])
    ensures r.Some? ==> forall f :: f in r.value.friends ==> f in db.users && (id, f) in db.friendships
    ensures r.Some? && db.Valid() ==> r.value.friends == OutEdges(db.friendships, id)
  {
    if id !in db.users then None
    else
      var friends := set p | p in db.friendships && p.0 == id && p.1 in db.users :: p.1;
      Some(UserFromRow(id, db.users[id]).(friends := friends))
  }

  // ---------------------------------------------------------------------------
  // addUser / updateUser
  // ---------------------------------------------------------------------------

  /** addUser: a user that fails validation is refused with nothing written;
      otherwise the row gets the next generated key, which becomes the user's
      id, and reads back as the validated user without friends. */
  method AddUser(db: Database, u: User, today: Date) returns (r: Result<User>)
    requires db.Valid()
    modifies db
    ensures db.Valid()
    ensures Validate(u, today).Err? ==> r == Err(Validate(u, today).error) && unchanged(db)
    ensures Validate(u, today).Ok? ==>
      && r.Ok?
      && r.value == WithDefaultName(u).(id := old(db.lastUserId) + 1)
      && r.value.id !in old(db.users)
      && db.users == old(db.users)[r.value.id := RowOfUser(r.value)]
      && db.lastUserId == r.value.id
      && GetUserById(db, r.value.id) == Some(r.value.(friends := {}))
    ensures db.films == old(db.films) && db.filmGenres == old(db.filmGenres)
    ensures db.filmLikes == old(db.filmLikes) && db.friendships == old(db.friendships)
    ensures db.lastFilmId == old(db.lastFilmId)
  {
    var checked := Validate(u, today);
    if checked.Err? {
      return Err(checked.error);
    }
    var named := checked.value;
    db.lastUserId := db.lastUserId + 1;
    var id := db.lastUserId;
    db.users := db.users[id := RowOfUser(named)];
    assert OutEdges(db.friendships, id) == {};
    r := Ok(named.(id := id));
  }

  /** updateUser: validation first; then an id without a row is NotFound with
      nothing written; otherwise the row is replaced and the user reads back
      as validated, keeping the friends it had. */
  method UpdateUser(db: Database, u: User, today: Date) returns (r: Result<User>)
    requires db.Valid()
    modifies db
    ensures db.Valid()
    ensures Validate(u, today).Err? ==> r == Err(Validate(u, today).error) && unchanged(db)
    ensures Validate(u, today).Ok? && u.id !in old(db.users) ==>
      r == Err(NotFound("User not found")) && unchanged(db)
    ensures Validate(u, today).Ok? && u.id in old(db.users) ==>
      && r == Ok(WithDefaultName(u))
      && db.users == old(db.users)[u.id := RowOfUser(r.value)]
      && GetUserById(db, u.id) == Some(r.value.(friends := OutEdges(db.friendships, u.id)))
    ensures db.films == old(db.films) && db.filmGenres == old(db.filmGenres)
    ensures db.filmLikes == old(db.filmLikes) && db.friendships == old(db.friendships)
    ensures db.lastFilmId == old(db.lastFilmId) && db.lastUserId == old(db.lastUserId)
  {
    var checked := Validate(u, today);
    if checked.Err? {
      return Err(checked.error);
    }
    if u.id !in db.users {
      return Err(NotFound("User not found"));
    }
    var named := checked.value;
    db.users := db.users[u.id := RowOfUser(named)];
    r := Ok(named);
  }

  // ---------------------------------------------------------------------------
  // Friendship edges
  // ---------------------------------------------------------------------------

  /** addFriend: inserts the one directed edge with status CONFIRMED; refused
      when either user is missing or the edge is already there. */
  method AddFriend(db: Database, userId: int, friendId: int) returns (r: Outcome)
    requires db.Valid()
    modifies db
    ensures db.Valid()
    ensures r == Pass <==>
      userId in old(db.users) && friendId in old(db.users) && (userId, friendId) !in old(db.friendships)
    ensures r != Pass ==> r == Fail(IntegrityViolation) && unchanged(db)
    ensures r == Pass ==> db.friendships == old(db.friendships)[(userId, friendId) := "CONFIRMED"]
    ensures r == Pass ==> OutEdges(db.friendships, userId) == OutEdges(old(db.friendships), userId) + {friendId}
    ensures forall x :: x != userId ==> OutEdges(db.friendships, x) == OutEdges(old(db.friendships), x)
    ensures db.films == old(db.films) && db.users == old(db.users) && db.filmGenres == old(db.filmGenres)
    ensures db.filmLikes == old(db.filmLikes)
    ensures db.lastFilmId == old(db.lastFilmId) && db.lastUserId == old(db.lastUserId)
  {
    if userId !in db.users || friendId !in db.users || (userId, friendId) in db.friendships {
      return Fail(IntegrityViolation);
    }
    db.friendships := db.friendships[(userId, friendId) := "CONFIRMED"];
    r := Pass;
  }

  /** removeFriend: deletes only that directed edge; nothing happens when it
      is absent. */
  method RemoveFriend(db: Database, userId: int, friendId: int)
    requires db.Valid()
    modifies db
    ensures db.Valid()
    ensures db.friendships == old(db.friendships) - {(userId, friendId)}
    ensures OutEdges(db.friendships, userId) == OutEdges(old(db.friendships), userId) - {friendId}
    ensures forall x :: x != userId ==> OutEdges(db.friendships, x) == OutEdges(old(db.friendships), x)
    ensures db.films == old(db.films) && db.users == old(db.users) && db.filmGenres == old(db.filmGenres)
    ensures db.filmLikes == old(db.filmLikes)
    ensures db.lastFilmId == old(db.lastFilmId) && db.lastUserId == old(db.lastUserId)
  {
    db.friendships := db.friendships - {(userId, friendId)};
  }

  // ---------------------------------------------------------------------------
  // getCommonFriends
  // ---------------------------------------------------------------------------

  /** The rows of the given users as the query maps them. */
  function QueryUsers(rows: map<int, UserRow>, ids: seq<int>): (r: seq<User>)
    requires forall i :: 0 <= i < |ids| ==> ids[i] in rows
    ensures |r| == |ids|
    ensures forall i :: 0 <= i < |ids| ==> r[i] == UserFromRow(ids[i], rows[ids[i]]) && r[i].id == ids[i]
    decreases |ids|
  {
    if ids == [] then [] else [UserFromRow(ids[0], rows[ids[0]])] + QueryUsers(rows, ids[1..])
  }

  /** Querying ascending ids gives one user per id, in the same order. */
  lemma QueriedUsers(rows: map<int, UserRow>, ids: seq<int>)
    requires forall i :: 0 <= i < |ids| ==> ids[i] in rows
    requires forall i, j :: 0 <= i < j < |ids| ==> ids[i] < ids[j]
    ensures forall x :: x in UserIds(QueryUsers(rows, ids)) <==> x in ids
    ensures forall i, j :: 0 <= i < j < |ids| ==> QueryUsers(rows, ids)[i].id < QueryUsers(rows, ids)[j].id
    ensures OnePerId(QueryUsers(rows, ids))
  {
    var r := QueryUsers(rows, ids);
    UsersWithSortedIds(r, ids);
  }

  /** Ids of the users both given users have an edge to. */
  function CommonIds(db: Database, userId1: int, userId2: int): set<int>
    reads db
  {
    set x | x in db.users.Keys && x in OutEdges(db.friendships, userId1) && x in OutEdges(db.friendships, userId2)
  }

  /** getCommonFriends: the users u with edges userId1 -> u and userId2 -> u,
      each once. */
  function GetCommonFriends(db: Database, userId1: int, userId2: int): (r: seq<User>)
    reads db
    requires db.Valid()
    ensures OnePerId(r)
    ensures forall i :: 0 <= i < |r| ==> r[i].id in db.users && r[i] == UserFromRow(r[i].id, db.users[r[i].id])
    ensures forall x :: x in UserIds(r) <==>
      x in db.users && (userId1, x) in db.friendships && (userId2, x) in db.friendships
  {
    var ids := KeysUpTo(CommonIds(db, userId1, userId2), db.lastUserId);
    QueriedUsers(db.users, ids);
    QueryUsers(db.users, ids)
  }

  /** Which user is named first does not matter. */
  lemma CommonFriendsSymmetric(db: Database, userId1: int, userId2: int)
    requires db.Valid()
    ensures GetCommonFriends(db, userId1, userId2) == GetCommonFriends(db, userId2, userId1)
  {
    assert CommonIds(db, userId1, userId2) == CommonIds(db, userId2, userId1);
  }

  // ---------------------------------------------------------------------------
  // getUsers
  // ---------------------------------------------------------------------------

  /** Every user once, ascending by id, without friends. */
  function GetUsers(db: Database): (r: seq<User>)
    reads db
    requires db.Valid()
    ensures OnePerId(r)
    ensures forall i :: 0 <= i < |r| ==> r[i].id in db.users && r[i] == UserFromRow(r[i].id, db.users[r[i].id])
    ensures UserIds(r) == db.users.Keys
    ensures forall i, j :: 0 <= i < j < |r| ==> r[i].id < r[j].id
  {
    AllUsersQueried(db.users, db.lastUserId);
    QueryUsers(db.users, KeysUpTo(db.users.Keys, db.lastUserId))
  }

  /** Querying every key up to the last id gives every user once, ascending. */
  lemma AllUsersQueried(rows: map<int, UserRow>, last: int)
    requires forall id :: id in rows ==> 1 <= id <= last
    ensures var r := QueryUsers(rows, KeysUpTo(rows.Keys, last));
      && OnePerId(r)
      && (forall i :: 0 <= i < |r| ==> r[i].id in rows && r[i] == UserFromRow(r[i].id, rows[r[i].id]))
      && UserIds(r) == rows.Keys
      && (forall i, j :: 0 <= i < j < |r| ==> r[i].id < r[j].id)
  {
    var ids := KeysUpTo(rows.Keys, last);
    QueriedUsers(rows, ids);
    var r := QueryUsers(rows, ids);
    SameIds(UserIds(r), ids, rows.Keys, last);
  }

  lemma SameIds(found: set<int>, ids: seq<int>, keys: set<int>, last: int)
    requires forall x :: x in found <==> x in ids
    requires forall k :: k in ids <==> k in keys && 1 <= k <= last
    requires forall k :: k in keys ==> 1 <= k <= last
    ensures found == keys
  {
    assert found <= keys by {
      forall x | x in found ensures x in keys {
        assert x in ids;
      }
    }
    assert keys <= found by {
      forall k | k in keys ensures k in found {
        assert k in ids;
      }
    }
  }

  /** How many rows Users LEFT JOIN user_friends holds for a user: one per
      outgoing edge, and one when there is none. */
  function JoinWidth(friendships: map<(int, int), string>): User -> nat {
    (u: User) => if |OutEdges(friendships, u.id)| == 0 then 1 else |OutEdges(friendships, u.id)|
  }

  function UserId(u: User): int { u.id }

  /** getUsers as written: one user per joined row, sorted by id again; a
      user with several friends is listed once per friend. */
  function GetUsersAsWritten(db: Database): seq<User>
    reads db
    requires db.Valid()
  {
    SortById(FanOut(GetUsers(db), JoinWidth(db.friendships)), UserId)
  }

  /** The listing as written holds each user as often as it has outgoing
      edges (once when it has none), where the corrected one holds it once. */
  lemma GetUsersRepeatsUsersWithFriends(db: Database, id: int)
    requires db.Valid() && id in db.users
    ensures var u := UserFromRow(id, db.users[id]);
      && multiset(GetUsers(db))[u] == 1
      && multiset(GetUsersAsWritten(db))[u] ==
           if |OutEdges(db.friendships, id)| == 0 then 1 else |OutEdges(db.friendships, id)|
  {
    var u := UserFromRow(id, db.users[id]);
    var r := GetUsers(db);
    assert Distinct(r) by {
      forall i, j | 0 <= i < j < |r| ensures r[i] != r[j] {
        assert r[i].id < r[j].id;
      }
    }
    assert id in UserIds(r);
    var i :| 0 <= i < |r| && r[i].id == id;
    assert r[i] == u;
    var fanned := FanOut(r, JoinWidth(db.friendships));
    FanOutCount(r, JoinWidth(db.friendships), u);
    SortByIdCorrect(fanned, UserId);
    OnceWhenDistinct(r, i);
  }
}
