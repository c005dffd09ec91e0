/** The relational store behind the database-backed storages: one field per
    table, generated keys as counters, and the key and foreign-key rules the
    statements obey.  A statement that would break a rule is refused and
    changes nothing. */
module Database {
  import opened Common
  import opened Model

  /** A row of Films (the id is the map key). */
  datatype FilmRow = FilmRow(
    name: Option<string>,
    description: Option<string>,
    releaseDate: Option<Date>,
    mpaId: Option<int>,
    duration: int)

  /** A row of Users (the id is the map key); only validated users are stored,
      so every column holds a value. */
  datatype UserRow = UserRow(login: string, email: string, name: string, birthday: Date)

  function GenreId(g: Genre): int { g.id }
  function MpaId(m: Mpa): int { m.id }

  function GenreIds(rows: seq<Genre>): set<int> {
    set g | g in rows :: g.id
  }

  function MpaIds(rows: seq<Mpa>): set<int> {
    set m | m in rows :: m.id
  }

  /** The id column of a reference table is its primary key. */
  predicate UniqueGenreIds(rows: seq<Genre>) {
    forall i, j :: 0 <= i < j < |rows| ==> rows[i].id != rows[j].id
  }

  predicate UniqueMpaIds(rows: seq<Mpa>) {
    forall i, j :: 0 <= i < j < |rows| ==> rows[i].id != rows[j].id
  }

  /** The genre ids a film is linked to in film_genres. */
  function LinkedGenreIds(filmGenres: set<(int, int)>, filmId: int): set<int> {
    set p | p in filmGenres && p.0 == filmId :: p.1
  }

  /** The users with a film_likes row for a film. */
  function Likers(filmLikes: set<(int, int)>, filmId: int): set<int> {
    set p | p in filmLikes && p.0 == filmId :: p.1
  }

  class Database {
    /** Genres and MPA are reference tables: no statement writes them. */
    const genres: seq<Genre>
    const mpa: seq<Mpa>
    var films: map<int, FilmRow>
    var users: map<int, UserRow>
    /** film_genres(film_id, genre_id) */
    var filmGenres: set<(int, int)>
    /** film_likes(film_id, like_user_id) */
    var filmLikes: set<(int, int)>
    /** user_friends(user_id, friend_id) -> status */
    var friendships: map<(int, int), string>
    /** last keys handed out by the identity columns of Films and Users */
    var lastFilmId: int
    var lastUserId: int

    /** Keys are unique, generated keys lie between 1 and the last one handed
        out, and every reference points at an existing row. */
    ghost predicate Valid()
      reads this
    {
      && UniqueGenreIds(genres) && UniqueMpaIds(mpa)
      && lastFilmId >= 0 && lastUserId >= 0
      && (forall id :: id in films ==> 1 <= id <= lastFilmId)
      && (forall id :: id in users ==> 1 <= id <= lastUserId)
      && (forall id :: id in films && films[id].mpaId.Some? ==> films[id].mpaId.value in MpaIds(mpa))
      && (forall p :: p in filmGenres ==> p.0 in films && p.1 in GenreIds(genres))
      && (forall p :: p in filmLikes ==> p.0 in films && p.1 in users)
      && (forall p :: p in friendships ==> p.0 in users && p.1 in users)
    }

    /** A fresh schema with its reference data loaded. */
    constructor (genres: seq<Genre>, mpa: seq<Mpa>)
      requires UniqueGenreIds(genres) && UniqueMpaIds(mpa)
      ensures Valid()
      ensures this.genres == genres && this.mpa == mpa
      ensures films == map[] && users == map[]
      ensures filmGenres == {} && filmLikes == {} && friendships == map[]
      ensures lastFilmId == 0 && lastUserId == 0
    {
      this.genres := genres;
      this.mpa := mpa;
      films := map[];
      users := map[];
      filmGenres := {};
      filmLikes := {};
      friendships := map[];
      lastFilmId := 0;
      lastUserId := 0;
    }

    /** INSERT INTO Films: the row gets the next generated key. */
    method InsertFilm(row: FilmRow) returns (id: int)
      requires Valid()
      requires row.mpaId.None? || row.mpaId.value in MpaIds(mpa)
      modifies this
      ensures Valid()
      ensures id == old(lastFilmId) + 1 && id !in old(films)
      ensures films == old(films)[id := row] && lastFilmId == id
      ensures users == old(users) && filmGenres == old(filmGenres)
      ensures filmLikes == old(filmLikes) && friendships == old(friendships)
      ensures lastUserId == old(lastUserId)
    {
      lastFilmId := lastFilmId + 1;
      id := lastFilmId;
      films := films[id := row];
    }

    /** DELETE FROM film_genres WHERE film_id = ? */
    method DeleteFilmGenres(filmId: int)
      requires Valid()
      modifies this
      ensures Valid()
      ensures filmGenres == set p | p in old(filmGenres) && p.0 != filmId
      ensures films == old(films) && users == old(users) && filmLikes == old(filmLikes)
      ensures friendships == old(friendships)
      ensures lastFilmId == old(lastFilmId) && lastUserId == old(lastUserId)
    {
      filmGenres := set p | p in filmGenres && p.0 != filmId;
    }

    /** INSERT INTO film_genres: refused when the film or the genre is missing
        or the pair is already present. */
    method InsertFilmGenre(filmId: int, genreId: int) returns (ok: bool)
      requires Valid()
      modifies this
      ensures Valid()
      ensures ok <==> filmId in films && genreId in GenreIds(genres) && (filmId, genreId) !in old(filmGenres)
      ensures filmGenres == if ok then old(filmGenres) + {(filmId, genreId)} else old(filmGenres)
      ensures films == old(films) && users == old(users) && filmLikes == old(filmLikes)
      ensures friendships == old(friendships)
      ensures lastFilmId == old(lastFilmId) && lastUserId == old(lastUserId)
    {
      ok := filmId in films && genreId in GenreIds(genres) && (filmId, genreId) !in filmGenres;
      if ok {
        filmGenres := filmGenres + {(filmId, genreId)};
      }
    }
  }
}
