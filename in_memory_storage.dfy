/** The in-memory stores: an id-keyed map per entity and a counter that hands
    out ids, one more than the last, never reusing one. */
module InMemoryStorage {
  import opened Common
  import opened Model

  /** The message both in-memory stores raise for an absent id. */
  function NotFoundMessage(entity: string, id: int): string {
    entity + " with ID " + IntToString(id) + " not found"
  }

  class InMemoryFilmStorage {
    var films: map<int, Film>
    var idGenerator: int

    /** Every stored film sits under its own id, and every id was handed out
        by the counter. */
    ghost predicate Valid()
      reads this
    {
      && idGenerator >= 0
      && (forall id :: id in films ==> 1 <= id <= idGenerator && films[id].id == id)
    }

    constructor ()
      ensures Valid()
      ensures films == map[] && idGenerator == 0
    {
      films := map[];
      idGenerator := 0;
    }

    /** create: the film gets the next id, whatever id it came with, and is
        stored under it. */
    method Create(film: Film) returns (created: Film)
      requires Valid()
      modifies this
      ensures Valid()
      ensures created == film.(id := old(idGenerator) + 1)
      ensures created.id !in old(films)
      ensures films == old(films)[created.id := created]
      ensures idGenerator == created.id
    {
      idGenerator := idGenerator + 1;
      created := film.(id := idGenerator);
      films := films[created.id := created];
    }

    /** update: an absent id is NotFound and changes nothing; otherwise only
        that entry is replaced. */
    method Update(film: Film) returns (r: Result<Film>)
      requires Valid()
      modifies this
      ensures Valid()
      ensures film.id !in old(films) ==>
        r == Err(NotFound(NotFoundMessage("Film", film.id))) && unchanged(this)
      ensures film.id in old(films) ==> r == Ok(film) && films == old(films)[film.id := film]
      ensures idGenerator == old(idGenerator)
    {
      if film.id !in films {
        return Err(NotFound(NotFoundMessage("Film", film.id)));
      }
      films := films[film.id := film];
      r := Ok(film);
    }

    /** delete: an absent id is NotFound and changes nothing; otherwise only
        that key is removed.  The counter is untouched, so the id is never
        handed out again. */
    method Delete(filmId: int) returns (r: Outcome)
      requires Valid()
      modifies this
      ensures Valid()
      ensures filmId !in old(films) ==>
        r == Fail(NotFound(NotFoundMessage("Film", filmId))) && unchanged(this)
      ensures filmId in old(films) ==> r == Pass && films == old(films) - {filmId}
      ensures idGenerator == old(idGenerator)
    {
      if filmId !in films {
        return Fail(NotFound(NotFoundMessage("Film", filmId)));
      }
      films := films - {filmId};
      r := Pass;
    }

    /** getFilmById: the stored film, which carries the id asked for, or
        nothing. */
    function GetFilmById(id: int): (r: Option<Film>)
      reads this
      ensures r.Some? <==> id in films
      ensures r.Some? ==> r.value == films[id]
      ensures r.Some? && Valid() ==> r.value.id == id
    {
      if id in films then Some(films[id]) else None
    }

    /** The stored films under the given ids, in that order. */
    function FilmsAt(ids: seq<int>): (r: seq<Film>)
      reads this
      requires forall i :: 0 <= i < |ids| ==> ids[i] in films
      ensures |r| == |ids|
      ensures forall i :: 0 <= i < |ids| ==> r[i] == films[ids[i]]
      decreases |ids|
    {
      if ids == [] then [] else [films[ids[0]]] + FilmsAt(ids[1..])
    }

    /** getAllFilms: exactly the stored films, each once. */
    function GetAllFilms(): (r: seq<Film>)
      reads this
      requires Valid()
      ensures |r| == |films|
      ensures forall i :: 0 <= i < |r| ==> r[i].id in films && r[i] == films[r[i].id]
      ensures forall id :: id in films ==> exists i :: 0 <= i < |r| && r[i].id == id
      ensures forall i, j :: 0 <= i < j < |r| ==> r[i].id < r[j].id
    {
      var ids := KeysUpTo(films.Keys, idGenerator);
      AllFilmsListed(ids);
      FilmsAt(ids)
    }

    /** The films under all keys, ascending, are every stored film once. */
    lemma AllFilmsListed(ids: seq<int>)
      requires Valid() && ids == KeysUpTo(films.Keys, idGenerator)
      ensures |FilmsAt(ids)| == |films|
      ensures forall i :: 0 <= i < |ids| ==> FilmsAt(ids)[i].id == ids[i]
      ensures forall id :: id in films ==> exists i :: 0 <= i < |ids| && FilmsAt(ids)[i].id == id
    {
      KeysUpToCount(films.Keys, idGenerator);
      var r := FilmsAt(ids);
      forall i | 0 <= i < |ids| ensures r[i].id == ids[i] {
        var id := ids[i];
        assert id in films && r[i] == films[id];
      }
      forall id | id in films ensures exists i :: 0 <= i < |ids| && r[i].id == id {
        assert id in ids;
        var i :| 0 <= i < |ids| && ids[i] == id;
        assert r[i] == films[id];
      }
    }
  }

  /** Every stored user already has its name defaulted. */
  ghost predicate NamesDefaulted(users: map<int, User>) {
    forall id :: id in users ==> WithDefaultName(users[id]) == users[id]
  }

  class InMemoryUserStorage {
    var users: map<int, User>
    var idGenerator: int

    /** Every stored user sits under its own id, every id was handed out by
        the counter, and no stored name is missing or blank unless the login
        is. */
    ghost predicate Valid()
      reads this
    {
      && idGenerator >= 0
      && (forall id :: id in users ==> 1 <= id <= idGenerator && users[id].id == id)
      && NamesDefaulted(users)
    }

    constructor ()
      ensures Valid()
      ensures users == map[] && idGenerator == 0
    {
      users := map[];
      idGenerator := 0;
    }

    /** create: the user gets the next id, its name is defaulted to the login,
        and it is stored under the id. */
    method Create(user: User) returns (created: User)
      requires Valid()
      modifies this
      ensures Valid()
      ensures created == WithDefaultName(user.(id := old(idGenerator) + 1))
      ensures created.id !in old(users)
      ensures users == old(users)[created.id := created]
      ensures idGenerator == created.id
    {
      idGenerator := idGenerator + 1;
      created := WithDefaultName(user.(id := idGenerator));
      users := users[created.id := created];
    }

    /** update: an absent id is NotFound and changes nothing; otherwise the
        name is defaulted and only that entry is replaced. */
    method Update(user: User) returns (r: Result<User>)
      requires Valid()
      modifies this
      ensures Valid()
      ensures user.id !in old(users) ==>
        r == Err(NotFound(NotFoundMessage("User", user.id))) && unchanged(this)
      ensures user.id in old(users) ==>
        r == Ok(WithDefaultName(user)) && users == old(users)[user.id := WithDefaultName(user)]
      ensures idGenerator == old(idGenerator)
    {
      if user.id !in users {
        return Err(NotFound(NotFoundMessage("User", user.id)));
      }
      var named := WithDefaultName(user);
      users := users[user.id := named];
      r := Ok(named);
    }

    /** getUserById: the stored user, which carries the id asked for, or
        nothing. */
    function GetUserById(id: int): (r: Option<User>)
      reads this
      ensures r.Some? <==> id in users
      ensures r.Some? ==> r.value == users[id]
      ensures r.Some? && Valid() ==> r.value.id == id
    {
      if id in users then Some(users[id]) else None
    }

    /** The stored users under the given ids, in that order. */
    function UsersAt(ids: seq<int>): (r: seq<User>)
      reads this
      requires forall i :: 0 <= i < |ids| ==> ids[i] in users
      ensures |r| == |ids|
      ensures forall i :: 0 <= i < |ids| ==> r[i] == users[ids[i]]
      decreases |ids|
    {
      if ids == [] then [] else [users[ids[0]]] + UsersAt(ids[1..])
    }

    /** The users under ascending stored ids: one per id, in that order. */
    lemma UsersListed(ids: seq<int>)
      requires Valid()
      requires forall i :: 0 <= i < |ids| ==> ids[i] in users
      requires forall i, j :: 0 <= i < j < |ids| ==> ids[i] < ids[j]
      ensures forall i :: 0 <= i < |ids| ==> UsersAt(ids)[i].id == ids[i]
      ensures forall x :: x in UserIds(UsersAt(ids)) <==> x in ids
      ensures OnePerId(UsersAt(ids))
    {
      var r := UsersAt(ids);
      forall i | 0 <= i < |ids| ensures r[i].id == ids[i] {
        var id := ids[i];
        assert id in users && r[i] == users[id];
      }
      UsersWithSortedIds(r, ids);
    }

    /** The stored users whose ids are in the given set, each once, ascending
        by id; ids with no stored user are dropped. */
    function UsersWithIds(ids: set<int>): (r: seq<User>)
      reads this
      requires Valid()
      ensures OnePerId(r)
      ensures forall i :: 0 <= i < |r| ==> r[i].id in users && r[i] == users[r[i].id]
      ensures forall x :: x in UserIds(r) <==> x in ids && x in users
    {
      var keys := KeysUpTo(ids * users.Keys, idGenerator);
      UsersListed(keys);
      UsersAt(keys)
    }

    /** getAllUsers: exactly the stored users, each once. */
    function GetAllUsers(): (r: seq<User>)
      reads this
      requires Valid()
      ensures OnePerId(r)
      ensures forall i :: 0 <= i < |r| ==> r[i].id in users && r[i] == users[r[i].id]
      ensures UserIds(r) == users.Keys
    {
      UsersWithIds(users.Keys)
    }
  }
}
