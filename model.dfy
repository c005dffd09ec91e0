/** The catalogue's entities as values: films, users, genres, MPA ratings and
    calendar dates, the declared field constraints of Film and User, and the
    id-only identity of a User. */
module Model {
  import opened Common

  /** A calendar date (LocalDate), compared year, then month, then day. */
  datatype Date = Date(year: int, month: int, day: int)

  /** LocalDate.isBefore */
  predicate IsBefore(a: Date, b: Date) {
    || a.year < b.year
    || (a.year == b.year && a.month < b.month)
    || (a.year == b.year && a.month == b.month && a.day < b.day)
  }

  /** Film.MIN_RELEASE_DATE: the first public film screening. */
  const MinReleaseDate: Date := Date(1895, 12, 28)

  /** Largest description length allowed by the declared @Size constraint. */
  const MaxDescriptionLength: int := 200

  /** A genre; equality is on both fields, as the generated equals compares both. */
  datatype Genre = Genre(id: int, name: Option<string>)

  /** An MPA age rating. */
  datatype Mpa = Mpa(id: int, name: Option<string>)

  /** A film.  A null genre list is read as the empty list, which every use of
      it treats alike; likes are the ids of the users who liked the film. */
  datatype Film = Film(
    id: int,
    name: Option<string>,
    description: Option<string>,
    releaseDate: Option<Date>,
    genres: seq<Genre>,
    mpa: Option<Mpa>,
    duration: int,
    likes: set<int>)

  /** A film from the no-argument constructor: the builder defaults give an
      empty genre list and an empty set of likes. */
  const NewFilm: Film := Film(0, None, None, None, [], None, 0, {})

  /** A user; friends are the ids of the user's friends. */
  datatype User = User(
    id: int,
    email: Option<string>,
    login: Option<string>,
    name: Option<string>,
    birthday: Option<Date>,
    friends: set<int>)

  /** A user from the no-argument constructor: no friends yet. */
  const NewUser: User := User(0, None, None, None, None, {})

  // ---------------------------------------------------------------------------
  // User identity
  // ---------------------------------------------------------------------------

  /** User.equals: two users are the same user when their ids agree. */
  predicate SameUser(a: User, b: User) {
    a.id == b.id
  }

  const TwoTo32: int := 0x1_0000_0000
  const TwoTo31: int := 0x8000_0000

  predicate IsInt32(x: int) {
    -TwoTo31 <= x < TwoTo31
  }

  /** Java int arithmetic: the value congruent to x modulo 2^32 in int range. */
  function Wrap32(x: int): (r: int)
    ensures IsInt32(r)
    ensures (x - r) % TwoTo32 == 0
  {
    (x + TwoTo31) % TwoTo32 - TwoTo31
  }

  /** User.hashCode: Objects.hash(id), that is 31 * 1 + id in int arithmetic. */
  function UserHash(u: User): int {
    Wrap32(31 + u.id)
  }

  /** The hash reads the id alone, and on int ids it tells users apart exactly
      when equals does. */
  lemma UserHashMatchesEquality(a: User, b: User)
    requires IsInt32(a.id) && IsInt32(b.id)
    ensures UserHash(a) == UserHash(b) <==> SameUser(a, b)
  {
    var d := (31 + a.id) - (31 + b.id);
    var ha, hb := UserHash(a), UserHash(b);
    assert ((31 + a.id) - ha) % TwoTo32 == 0;
    assert ((31 + b.id) - hb) % TwoTo32 == 0;
    if ha == hb {
      assert (d - 0) % TwoTo32 == 0 by {
        assert d == ((31 + a.id) - ha) - ((31 + b.id) - hb);
      }
      assert -TwoTo32 < d < TwoTo32;
    }
  }

  /** No two entries of a user collection are equal users. */
  predicate OnePerId(s: seq<User>) {
    forall i, j :: 0 <= i < j < |s| ==> !SameUser(s[i], s[j])
  }

  function UserIds(s: seq<User>): set<int> {
    set u | u in s :: u.id
  }

  /** Users that carry the given ascending ids, position by position, have
      exactly those ids and are one per id. */
  lemma {:induction false} UsersWithSortedIds(r: seq<User>, ids: seq<int>)
    requires |r| == |ids|
    requires forall i :: 0 <= i < |ids| ==> r[i].id == ids[i]
    requires forall i, j :: 0 <= i < j < |ids| ==> ids[i] < ids[j]
    ensures forall x :: x in UserIds(r) <==> x in ids
    ensures OnePerId(r)
  {
    forall x | x in ids ensures x in UserIds(r) {
      var i :| 0 <= i < |ids| && ids[i] == x;
      assert r[i] in r;
    }
    forall x | x in UserIds(r) ensures x in ids {
      var u :| u in r && u.id == x;
      var i :| 0 <= i < |r| && r[i] == u;
      assert ids[i] == x;
    }
  }

  // ---------------------------------------------------------------------------
  // Name defaulting
  // ---------------------------------------------------------------------------

  /** A missing or blank display name is replaced by the login. */
  function WithDefaultName(u: User): (r: User)
    ensures r.(name := u.name) == u
    ensures u.name.Some? && !IsBlank(u.name.value) ==> r == u
    ensures u.name.None? || IsBlank(u.name.value) ==> r.name == u.login
  {
    if u.name.None? || IsBlank(u.name.value) then u.(name := u.login) else u
  }

  /** Defaulting twice changes nothing more than defaulting once. */
  lemma WithDefaultNameIdempotent(u: User)
    ensures WithDefaultName(WithDefaultName(u)) == WithDefaultName(u)
  {
  }

  // ---------------------------------------------------------------------------
  // Declared field constraints
  // ---------------------------------------------------------------------------

  /** Film's annotations: @NotBlank name, @Size(max = 200) description (null is
      valid), @Positive duration. */
  predicate FilmConstraintsHold(f: Film) {
    && f.name.Some? && !IsBlank(f.name.value)
    && (f.description.None? || |f.description.value| <= MaxDescriptionLength)
    && f.duration > 0
  }

  /** User's annotations: @NotBlank email and login, @Past birthday (null is
      valid).  The @Email format itself is not modelled. */
  predicate UserConstraintsHold(u: User, today: Date) {
    && u.email.Some? && !IsBlank(u.email.value)
    && u.login.Some? && !IsBlank(u.login.value)
    && (u.birthday.None? || IsBefore(u.birthday.value, today))
  }
}
