/** The database-backed film storage: adding and updating films with their
    genre links, reading a film back, the like-count ranking, and the like
    rows. */
module FilmDbStorage {
  import opened Common
  import opened Model
  import opened Database
  import opened GenreDbStorage
  import opened MpaDbStorage

  // ---------------------------------------------------------------------------
  // The MPA check of addFilm
  // ---------------------------------------------------------------------------

  /** The MPA check as written: `mpa != null || mpa.name != null` evaluates its
      right operand only when the rating is null, and so dereferences null; the
      "MPA cannot be null" rejection is never reached. */
  function CheckMpaAsWritten(table: seq<Mpa>, mpa: Option<Mpa>): (r: Outcome)
    ensures r == Pass <==> mpa.Some? && mpa.value.id in MpaIds(table)
  {
    if mpa.None? then Fail(NullDereference)
    else if mpa.value.id !in MpaIds(table) then Fail(NotFound("MPA not found"))
    else Pass
  }

  /** A film without a rating crashes the check as written instead of being
      rejected as invalid. */
  lemma NullMpaCrashes(table: seq<Mpa>)
    ensures CheckMpaAsWritten(table, None) == Fail(NullDereference)
    ensures CheckMpaAsWritten(table, None) != Fail(Validation("MPA cannot be null"))
  {
  }

  /** The check as intended: a missing rating is invalid, an unknown one is not
      found. */
  function CheckMpa(table: seq<Mpa>, mpa: Option<Mpa>): (r: Outcome)
    ensures r == Pass <==> mpa.Some? && mpa.value.id in MpaIds(table)
    ensures mpa.None? ==> r == Fail(Validation("MPA cannot be null"))
    ensures mpa.Some? && mpa.value.id !in MpaIds(table) ==> r == Fail(NotFound("MPA not found"))
  {
    if mpa.None? then Fail(Validation("MPA cannot be null"))
    else if mpa.value.id !in MpaIds(table) then Fail(NotFound("MPA not found"))
    else Pass
  }

  /** The two checks differ only on a film without a rating. */
  lemma CheckMpaDiffersOnlyOnNull(table: seq<Mpa>, mpa: Option<Mpa>)
    ensures CheckMpaAsWritten(table, mpa) == CheckMpa(table, mpa) <==> mpa.Some?
  {
  }

  // ---------------------------------------------------------------------------
  // The genre check of addFilm
  // ---------------------------------------------------------------------------

  /** The ids of a genre list, in order. */
  function GenreIdList(genres: seq<Genre>): (r: seq<int>)
    ensures |r| == |genres|
    ensures forall i :: 0 <= i < |r| ==> r[i] == genres[i].id
  {
    seq(|genres|, i requires 0 <= i < |genres| => genres[i].id)
  }

  /** No id is given two different names in a genre list. */
  predicate ConsistentGenres(genres: seq<Genre>) {
    forall i, j :: 0 <= i < |genres| && 0 <= j < |genres| && genres[i].id == genres[j].id ==>
      genres[i] == genres[j]
  }

  /** Once equal genres are collapsed, ids repeat exactly when the input gave
      one id two names. */
  lemma DedupIdsDistinct(genres: seq<Genre>)
    ensures Distinct(GenreIdList(Dedup(genres))) <==> ConsistentGenres(genres)
  {
    if Distinct(GenreIdList(Dedup(genres))) {
      DistinctIdsConsistent(genres);
    }
    if ConsistentGenres(genres) {
      ConsistentIdsDistinct(genres);
    }
  }

  lemma DistinctIdsConsistent(genres: seq<Genre>)
    requires Distinct(GenreIdList(Dedup(genres)))
    ensures ConsistentGenres(genres)
  {
    var u := Dedup(genres);
    var ids := GenreIdList(u);
    forall i, j | 0 <= i < |genres| && 0 <= j < |genres| && genres[i].id == genres[j].id
      ensures genres[i] == genres[j]
    {
      var a :| 0 <= a < |u| && u[a] == genres[i];
      var b :| 0 <= b < |u| && u[b] == genres[j];
      assert ids[a] == ids[b];
    }
  }

  lemma ConsistentIdsDistinct(genres: seq<Genre>)
    requires ConsistentGenres(genres)
    ensures Distinct(GenreIdList(Dedup(genres)))
  {
    var u := Dedup(genres);
    var ids := GenreIdList(u);
    forall a, b | 0 <= a < b < |ids| ensures ids[a] != ids[b] {
      var i :| 0 <= i < |genres| && genres[i] == u[a];
      var j :| 0 <= j < |genres| && genres[j] == u[b];
      assert u[a] != u[b];
    }
  }

  /** The genre check of addFilm: collapse equal genres, look their ids up in
      Genres, and report the ids not found when the number of rows found
      differs from the number of ids. */
  function CheckGenres(table: seq<Genre>, genres: seq<Genre>): Outcome {
    if genres == [] then Pass
    else
      var ids := GenreIdList(Dedup(genres));
      if |RowsWithIds(table, Elements(ids))| != |ids| then
        Fail(GenresNotFound(Elements(ids) - GenreIds(table)))
      else Pass
  }

  /** The id list of a genre list holds exactly the genres' ids. */
  lemma IdListElements(genres: seq<Genre>)
    ensures Elements(GenreIdList(genres)) == GenreIds(genres)
  {
    var all := GenreIdList(genres);
    forall x | x in Elements(all) ensures x in GenreIds(genres) {
      var i :| 0 <= i < |all| && all[i] == x;
      assert genres[i] in genres;
    }
    forall x | x in GenreIds(genres) ensures x in Elements(all) {
      var g :| g in genres && g.id == x;
      var i :| 0 <= i < |genres| && genres[i] == g;
      assert all[i] == x;
    }
  }

  /** The genre check passes exactly when every genre id exists and no id is
      given two names; otherwise it reports the listed ids missing from the
      table, which is empty when all exist but an id was given two names. */
  lemma CheckGenresMeaning(table: seq<Genre>, genres: seq<Genre>)
    requires UniqueGenreIds(table)
    ensures CheckGenres(table, genres) == Pass <==>
      GenreIds(genres) <= GenreIds(table) && ConsistentGenres(genres)
    ensures CheckGenres(table, genres) != Pass ==>
      CheckGenres(table, genres) == Fail(GenresNotFound(GenreIds(genres) - GenreIds(table)))
  {
    if genres != [] {
      var u := Dedup(genres);
      var ids := GenreIdList(u);
      var listed := Elements(ids);
      IdListElements(u);
      assert GenreIds(u) == GenreIds(genres);
      RowsWithIdsCount(table, listed);
      IntersectionCard(GenreIds(table), listed);
      ElementsCard(ids);
      DedupIdsDistinct(genres);
    }
  }

  // ---------------------------------------------------------------------------
  // Reading films
  // ---------------------------------------------------------------------------

  /** The Films row written for a film. */
  function RowOf(film: Film): FilmRow {
    FilmRow(film.name, film.description, film.releaseDate,
            if film.mpa.Some? then Some(film.mpa.value.id) else None, film.duration)
  }

  /** mapRowToFilm: the row's columns, the rating looked up by id (absent when
      the lookup finds nothing), no genres and no likes. */
  function RowToFilm(mpaTable: seq<Mpa>, id: int, row: FilmRow): Film {
    NewFilm.(id := id, name := row.name, description := row.description,
             releaseDate := row.releaseDate, duration := row.duration,
             mpa := if row.mpaId.Some? then GetMpaById(mpaTable, row.mpaId.value) else None)
  }

  /** getFilmById: absent exactly when no row has the id; otherwise the row's
      columns, its rating, its linked genres ascending by id, and no likes,
      which the query never fills. */
  function GetFilmById(db: Database, filmId: int): (r: Option<Film>)
    reads db
    ensures r.Some? <==> filmId in db.films
    ensures r.Some? ==> RowToFilm(db.mpa, filmId, db.films[filmId]) == r.value.(genres := [])
    ensures r.Some? ==> r.value.id == filmId && r.value.likes == {}
    ensures r.Some? ==> forall g :: g in r.value.genres <==> g in db.genres && (filmId, g.id) in db.filmGenres
    ensures r.Some? ==> SortedById(r.value.genres, GenreId)
    ensures r.Some? && db.Valid() ==>
      forall i, j :: 0 <= i < j < |r.value.genres| ==> r.value.genres[i].id < r.value.genres[j].id
    ensures r.Some? && db.Valid() && db.films[filmId].mpaId.Some? ==>
      r.value.mpa.Some? && r.value.mpa.value.id == db.films[filmId].mpaId.value
  {
    if filmId !in db.films then None
    else
      var film := RowToFilm(db.mpa, filmId, db.films[filmId]);
      if UniqueGenreIds(db.genres) then
        GenresByFilmIdStrictlyAscending(db.genres, db.filmGenres, filmId);
        Some(film.(genres := GetGenresByFilmId(db.genres, db.filmGenres, filmId)))
      else Some(film.(genres := GetGenresByFilmId(db.genres, db.filmGenres, filmId)))
  }

  // ---------------------------------------------------------------------------
  // Genre links of a film
  // ---------------------------------------------------------------------------

  /** The film_genres rows a film's genres call for. */
  function GenreLinks(filmId: int, genres: seq<Genre>): set<(int, int)> {
    set g | g in genres :: (filmId, g.id)
  }

  /** The insert for the k-th genre is refused: the genre does not exist, or
      the same link is already present or was written earlier in the loop. */
  predicate LinkRefused(table: seq<Genre>, existing: set<(int, int)>, filmId: int, genres: seq<Genre>, k: int)
    requires 0 <= k < |genres|
  {
    genres[k].id !in GenreIds(table) || (filmId, genres[k].id) in existing + GenreLinks(filmId, genres[..k])
  }

  /** The insert loop: one film_genres row per genre, in list order, stopping
      at the first refused insert (whose index is returned); the rows written
      before it stay, as nothing rolls them back. */
  method InsertGenreLinks(db: Database, filmId: int, genres: seq<Genre>) returns (failedAt: Option<int>)
    requires db.Valid() && filmId in db.films
    modifies db
    ensures db.Valid()
    ensures failedAt.None? <==>
      forall k :: 0 <= k < |genres| ==> !LinkRefused(db.genres, old(db.filmGenres), filmId, genres, k)
    ensures failedAt.None? ==> db.filmGenres == old(db.filmGenres) + GenreLinks(filmId, genres)
    ensures failedAt.Some? ==>
      && 0 <= failedAt.value < |genres|
      && LinkRefused(db.genres, old(db.filmGenres), filmId, genres, failedAt.value)
      && db.filmGenres == old(db.filmGenres) + GenreLinks(filmId, genres[..failedAt.value])
    ensures db.films == old(db.films) && db.users == old(db.users) && db.filmLikes == old(db.filmLikes)
    ensures db.friendships == old(db.friendships)
    ensures db.lastFilmId == old(db.lastFilmId) && db.lastUserId == old(db.lastUserId)
  {
    var k := 0;
    while k < |genres|
      invariant 0 <= k <= |genres|
      invariant db.Valid() && filmId in db.films
      invariant db.filmGenres == old(db.filmGenres) + GenreLinks(filmId, genres[..k])
      invariant forall j :: 0 <= j < k ==> !LinkRefused(db.genres, old(db.filmGenres), filmId, genres, j)
      invariant db.films == old(db.films) && db.users == old(db.users) && db.filmLikes == old(db.filmLikes)
      invariant db.friendships == old(db.friendships)
      invariant db.lastFilmId == old(db.lastFilmId) && db.lastUserId == old(db.lastUserId)
    {
      var ok := db.InsertFilmGenre(filmId, genres[k].id);
      if !ok {
        assert LinkRefused(db.genres, old(db.filmGenres), filmId, genres, k);
        return Some(k);
      }
      assert genres[..k + 1] == genres[..k] + [genres[k]];
      k := k + 1;
    }
    assert genres[..k] == genres;
    return None;
  }

  /** The genres can all be linked to a film: each exists and no id repeats. */
  predicate GenresLinkable(table: seq<Genre>, genres: seq<Genre>) {
    GenreIds(genres) <= GenreIds(table) && Distinct(GenreIdList(genres))
  }

  /** For a film with no links yet, the insert loop runs to the end exactly
      when the genres can all be linked. */
  lemma LinksAcceptedIff(table: seq<Genre>, existing: set<(int, int)>, filmId: int, genres: seq<Genre>)
    requires forall p :: p in existing ==> p.0 != filmId
    ensures (forall k :: 0 <= k < |genres| ==> !LinkRefused(table, existing, filmId, genres, k))
      <==> GenresLinkable(table, genres)
  {
    var ids := GenreIdList(genres);
    if GenresLinkable(table, genres) {
      forall k | 0 <= k < |genres| ensures !LinkRefused(table, existing, filmId, genres, k) {
        assert genres[k] in genres;
        forall g | g in genres[..k] ensures g.id != genres[k].id {
          var j :| 0 <= j < k && genres[..k][j] == g;
          assert ids[j] != ids[k];
        }
      }
    }
    if forall k :: 0 <= k < |genres| ==> !LinkRefused(table, existing, filmId, genres, k) {
      forall g | g in genres ensures g.id in GenreIds(table) {
        var k :| 0 <= k < |genres| && genres[k] == g;
        assert !LinkRefused(table, existing, filmId, genres, k);
      }
      forall j, k | 0 <= j < k < |ids| ensures ids[j] != ids[k] {
        assert !LinkRefused(table, existing, filmId, genres, k);
        assert genres[..k][j] == genres[j];
        assert (filmId, genres[j].id) in GenreLinks(filmId, genres[..k]);
      }
    }
  }

  /** Links written for a film that had none name exactly its genres' ids. */
  lemma FreshLinksRead(before: set<(int, int)>, filmId: int, genres: seq<Genre>)
    requires forall p :: p in before ==> p.0 != filmId
    ensures LinkedGenreIds(before + GenreLinks(filmId, genres), filmId) == GenreIds(genres)
  {
    var after := before + GenreLinks(filmId, genres);
    forall x | x in GenreIds(genres) ensures x in LinkedGenreIds(after, filmId) {
      var g :| g in genres && g.id == x;
      assert (filmId, g.id) in GenreLinks(filmId, genres);
    }
  }

  /** The links genres call for depend only on their ids. */
  lemma GenreLinksByIds(filmId: int, a: seq<Genre>, b: seq<Genre>)
    requires GenreIds(a) == GenreIds(b)
    ensures GenreLinks(filmId, a) == GenreLinks(filmId, b)
  {
    forall p | p in GenreLinks(filmId, a) ensures p in GenreLinks(filmId, b) {
      var g :| g in a && p == (filmId, g.id);
      assert g.id in GenreIds(b);
    }
    forall p | p in GenreLinks(filmId, b) ensures p in GenreLinks(filmId, a) {
      var g :| g in b && p == (filmId, g.id);
      assert g.id in GenreIds(a);
    }
  }

  /** A film's stored links read back as genres with exactly the linked ids. */
  lemma LinkedGenresReadBack(db: Database, filmId: int, genres: seq<Genre>)
    requires db.Valid() && filmId in db.films
    requires LinkedGenreIds(db.filmGenres, filmId) == GenreIds(genres)
    ensures GetFilmById(db, filmId).Some?
    ensures GenreIds(GetFilmById(db, filmId).value.genres) == GenreIds(genres)
  {
    var back := GetFilmById(db, filmId).value.genres;
    forall x | x in GenreIds(genres) ensures x in GenreIds(back) {
      assert (filmId, x) in db.filmGenres;
      var t := GetGenreById(db.genres, x).value;
      assert t in back;
    }
  }

  // ---------------------------------------------------------------------------
  // addFilm
  // ---------------------------------------------------------------------------

  /** The writes of addFilm once both checks have passed. */
  method WriteNewFilm(db: Database, film: Film) returns (added: Film)
    requires db.Valid()
    requires CheckMpa(db.mpa, film.mpa) == Pass
    requires GenreIds(film.genres) <= GenreIds(db.genres) && ConsistentGenres(film.genres)
    modifies db
    ensures db.Valid()
    ensures added.id == old(db.lastFilmId) + 1 && added.id !in old(db.films)
    ensures added == film.(id := added.id, genres := Dedup(film.genres))
    ensures db.films == old(db.films)[added.id := RowOf(film)]
    ensures db.filmGenres == old(db.filmGenres) + GenreLinks(added.id, film.genres)
    ensures |LinkedGenreIds(db.filmGenres, added.id)| == |added.genres|
    ensures GetFilmById(db, added.id).Some?
    ensures GenreIds(GetFilmById(db, added.id).value.genres) == GenreIds(film.genres)
    ensures db.lastFilmId == added.id
    ensures db.users == old(db.users) && db.filmLikes == old(db.filmLikes)
    ensures db.friendships == old(db.friendships) && db.lastUserId == old(db.lastUserId)
  {
    var unique := Dedup(film.genres);
    DedupIdsDistinct(film.genres);
    assert GenreIds(unique) == GenreIds(film.genres);
    var id := db.InsertFilm(RowOf(film));
    LinksAcceptedIff(db.genres, db.filmGenres, id, unique);
    ghost var before := db.filmGenres;
    var failedAt := InsertGenreLinks(db, id, unique);
    assert failedAt.None?;
    GenreLinksByIds(id, unique, film.genres);
    FreshLinksRead(before, id, unique);
    IdListElements(unique);
    ElementsCard(GenreIdList(unique));
    LinkedGenresReadBack(db, id, film.genres);
    added := film.(id := id, genres := unique);
  }

  /** addFilm: checks the rating, then the genres, and only then writes; the
      film row gets the next generated key and one film_genres row is written
      per distinct genre.  The film returned carries the new id and its genres
      with equal ones collapsed, and reads back with the same genre ids. */
  method AddFilm(db: Database, film: Film) returns (r: Result<Film>)
    requires db.Valid()
    modifies db
    ensures db.Valid()
    ensures CheckMpa(db.mpa, film.mpa) != Pass ==>
      r == Err(CheckMpa(db.mpa, film.mpa).error) && unchanged(db)
    ensures CheckMpa(db.mpa, film.mpa) == Pass && CheckGenres(db.genres, film.genres) != Pass ==>
      r == Err(CheckGenres(db.genres, film.genres).error) && unchanged(db)
    ensures CheckMpa(db.mpa, film.mpa) == Pass && CheckGenres(db.genres, film.genres) == Pass ==> r.Ok?
    ensures r.Ok? ==>
      && r.value.id == old(db.lastFilmId) + 1 && r.value.id !in old(db.films)
      && r.value == film.(id := r.value.id, genres := r.value.genres)
      && Distinct(r.value.genres) && Elements(r.value.genres) == Elements(film.genres)
      && db.films == old(db.films)[r.value.id := RowOf(film)]
      && db.filmGenres == old(db.filmGenres) + GenreLinks(r.value.id, film.genres)
      && |LinkedGenreIds(db.filmGenres, r.value.id)| == |r.value.genres|
      && db.lastFilmId == r.value.id
    ensures r.Ok? ==>
      && GetFilmById(db, r.value.id).Some?
      && GenreIds(GetFilmById(db, r.value.id).value.genres) == GenreIds(film.genres)
    ensures db.users == old(db.users) && db.filmLikes == old(db.filmLikes)
    ensures db.friendships == old(db.friendships) && db.lastUserId == old(db.lastUserId)
  {
    var mpaCheck := CheckMpa(db.mpa, film.mpa);
    if mpaCheck != Pass {
      return Err(mpaCheck.error);
    }
    var genreCheck := CheckGenres(db.genres, film.genres);
    if genreCheck != Pass {
      return Err(genreCheck.error);
    }
    CheckGenresMeaning(db.genres, film.genres);
    var added := WriteNewFilm(db, film);
    r := Ok(added);
  }

  // ---------------------------------------------------------------------------
  // updateFilm
  // ---------------------------------------------------------------------------

  /** The rating column can hold the film's rating: none, or an existing one. */
  predicate MpaReferable(table: seq<Mpa>, mpa: Option<Mpa>) {
    mpa.None? || mpa.value.id in MpaIds(table)
  }

  /** The links of every film but one. */
  function OtherLinks(links: set<(int, int)>, filmId: int): set<(int, int)> {
    set p | p in links && p.0 != filmId
  }

  /** updateFilm: an unknown id matches no row (NotFound, nothing written); a
      rating that does not exist breaks the foreign key; otherwise the row is
      replaced, the film's links are deleted and one is inserted per genre in
      list order.  Nothing rolls back: when an insert is refused, the new row
      and the links written before it stay. */
  method UpdateFilm(db: Database, film: Film) returns (r: Result<Film>)
    requires db.Valid()
    modifies db
    ensures db.Valid()
    ensures film.id !in old(db.films) ==> r == Err(NotFound("Film not found")) && unchanged(db)
    ensures film.id in old(db.films) && !MpaReferable(db.mpa, film.mpa) ==>
      r == Err(IntegrityViolation) && unchanged(db)
    ensures film.id in old(db.films) && MpaReferable(db.mpa, film.mpa) ==>
      && db.films == old(db.films)[film.id := RowOf(film)]
      && (r.Ok? <==> GenresLinkable(db.genres, film.genres))
      && (r.Ok? ==> r.value == film)
      && (r.Ok? ==> db.filmGenres == OtherLinks(old(db.filmGenres), film.id) + GenreLinks(film.id, film.genres))
      && (r.Err? ==> r.error == IntegrityViolation && exists k ::
            && 0 <= k < |film.genres|
            && LinkRefused(db.genres, OtherLinks(old(db.filmGenres), film.id), film.id, film.genres, k)
            && db.filmGenres == OtherLinks(old(db.filmGenres), film.id) + GenreLinks(film.id, film.genres[..k]))
    ensures r.Ok? ==>
      && GetFilmById(db, film.id).Some?
      && GenreIds(GetFilmById(db, film.id).value.genres) == GenreIds(film.genres)
    ensures db.users == old(db.users) && db.filmLikes == old(db.filmLikes)
    ensures db.friendships == old(db.friendships)
    ensures db.lastFilmId == old(db.lastFilmId) && db.lastUserId == old(db.lastUserId)
  {
    if film.id !in db.films {
      return Err(NotFound("Film not found"));
    }
    if !MpaReferable(db.mpa, film.mpa) {
      return Err(IntegrityViolation);
    }
    db.films := db.films[film.id := RowOf(film)];
    db.DeleteFilmGenres(film.id);
    ghost var others := db.filmGenres;
    LinksAcceptedIff(db.genres, others, film.id, film.genres);
    var failedAt := InsertGenreLinks(db, film.id, film.genres);
    if failedAt.Some? {
      return Err(IntegrityViolation);
    }
    FreshLinksRead(others, film.id, film.genres);
    LinkedGenresReadBack(db, film.id, film.genres);
    r := Ok(film);
  }

  // ---------------------------------------------------------------------------
  // Likes
  // ---------------------------------------------------------------------------

  /** addLike: one film_likes row; refused when the film or the user does not
      exist or the like is already recorded. */
  method AddLike(db: Database, filmId: int, userId: int) returns (r: Outcome)
    requires db.Valid()
    modifies db
    ensures db.Valid()
    ensures r == Pass <==>
      filmId in old(db.films) && userId in old(db.users) && (filmId, userId) !in old(db.filmLikes)
    ensures r != Pass ==> r == Fail(IntegrityViolation) && unchanged(db)
    ensures r == Pass ==> db.filmLikes == old(db.filmLikes) + {(filmId, userId)}
    ensures r == Pass ==> |Likers(db.filmLikes, filmId)| == |Likers(old(db.filmLikes), filmId)| + 1
    ensures db.films == old(db.films) && db.users == old(db.users) && db.filmGenres == old(db.filmGenres)
    ensures db.friendships == old(db.friendships)
    ensures db.lastFilmId == old(db.lastFilmId) && db.lastUserId == old(db.lastUserId)
  {
    if filmId !in db.films || userId !in db.users || (filmId, userId) in db.filmLikes {
      return Fail(IntegrityViolation);
    }
    ghost var before := Likers(db.filmLikes, filmId);
    db.filmLikes := db.filmLikes + {(filmId, userId)};
    assert Likers(db.filmLikes, filmId) == before + {userId};
    r := Pass;
  }

  /** removeLike: deletes the like row; silently does nothing when there is
      none. */
  method RemoveLike(db: Database, filmId: int, userId: int)
    requires db.Valid()
    modifies db
    ensures db.Valid()
    ensures db.filmLikes == old(db.filmLikes) - {(filmId, userId)}
    ensures Likers(db.filmLikes, filmId) == Likers(old(db.filmLikes), filmId) - {userId}
    ensures db.films == old(db.films) && db.users == old(db.users) && db.filmGenres == old(db.filmGenres)
    ensures db.friendships == old(db.friendships)
    ensures db.lastFilmId == old(db.lastFilmId) && db.lastUserId == old(db.lastUserId)
  {
    db.filmLikes := db.filmLikes - {(filmId, userId)};
  }

  // ---------------------------------------------------------------------------
  // getTopFilms
  // ---------------------------------------------------------------------------

  /** Ranking key: more likes first. */
  function LikeKey(filmLikes: set<(int, int)>): int -> int {
    x => -|Likers(filmLikes, x)|
  }

  /** ORDER BY like_count DESC, f.id ASC over all films, zero-like films
      included (the join is a LEFT JOIN). */
  function Ranking(db: Database): seq<int>
    reads db
  {
    SortOrdered(KeysUpTo(db.films.Keys, db.lastFilmId), LikeKey(db.filmLikes))
  }

  /** The ranking lists every film once. */
  lemma RankingListsAllFilms(db: Database)
    requires db.Valid()
    ensures forall i :: 0 <= i < |Ranking(db)| ==> Ranking(db)[i] in db.films
    ensures forall id :: id in db.films ==> id in Ranking(db)
    ensures |Ranking(db)| == |db.films|
  {
    var keys := KeysUpTo(db.films.Keys, db.lastFilmId);
    KeysUpToCount(db.films.Keys, db.lastFilmId);
    SortOrderedCorrect(keys, LikeKey(db.filmLikes));
    var r := Ranking(db);
    assert multiset(r) == multiset(keys);
    forall i | 0 <= i < |r| ensures r[i] in db.films {
      assert r[i] in multiset(keys);
    }
    forall id | id in db.films ensures id in r {
      assert id in multiset(keys);
    }
    assert |r| == |multiset(r)| == |multiset(keys)| == |keys|;
  }

  /** The ranking lists every film once, by like count descending and then by
      id ascending. */
  lemma RankingOrdersAllFilms(db: Database)
    requires db.Valid()
    ensures forall i :: 0 <= i < |Ranking(db)| ==> Ranking(db)[i] in db.films
    ensures forall id :: id in db.films ==> id in Ranking(db)
    ensures |Ranking(db)| == |db.films|
    ensures forall i, j :: 0 <= i < j < |Ranking(db)| ==>
      var a, b := Ranking(db)[i], Ranking(db)[j];
      |Likers(db.filmLikes, a)| > |Likers(db.filmLikes, b)| ||
      (|Likers(db.filmLikes, a)| == |Likers(db.filmLikes, b)| && a < b)
  {
    var keys := KeysUpTo(db.films.Keys, db.lastFilmId);
    var key := LikeKey(db.filmLikes);
    RankingListsAllFilms(db);
    SortOrderedCorrect(keys, key);
    var r := Ranking(db);
    forall i, j | 0 <= i < j < |r|
      ensures |Likers(db.filmLikes, r[i])| > |Likers(db.filmLikes, r[j])| ||
              (|Likers(db.filmLikes, r[i])| == |Likers(db.filmLikes, r[j])| && r[i] < r[j])
    {
      assert Before(key, r[i], r[j]);
    }
  }

  /** The order is fully determined: any list of all the films ordered by like
      count descending, then id ascending, is the ranking. */
  lemma RankingIsTheOrder(db: Database, t: seq<int>)
    requires db.Valid()
    requires forall i :: 0 <= i < |t| ==> t[i] in db.films
    requires forall id :: id in db.films ==> id in t
    requires forall i, j :: 0 <= i < j < |t| ==>
      |Likers(db.filmLikes, t[i])| > |Likers(db.filmLikes, t[j])| ||
      (|Likers(db.filmLikes, t[i])| == |Likers(db.filmLikes, t[j])| && t[i] < t[j])
    ensures t == Ranking(db)
  {
    var key := LikeKey(db.filmLikes);
    var r := Ranking(db);
    RankingOrdersAllFilms(db);
    forall i, j | 0 <= i < j < |t| ensures Before(key, t[i], t[j]) {
    }
    forall i, j | 0 <= i < j < |r| ensures Before(key, r[i], r[j]) {
    }
    forall i | 0 <= i < |r| ensures r[i] in t {
      assert r[i] in db.films;
    }
    StrictlyOrderedUnique(r, t, key);
  }

  /** The rows of the given films as the query maps them. */
  function QueryFilms(mpa: seq<Mpa>, rows: map<int, FilmRow>, ids: seq<int>): (r: seq<Film>)
    requires forall i :: 0 <= i < |ids| ==> ids[i] in rows
    ensures |r| == |ids|
    ensures forall i :: 0 <= i < |ids| ==> r[i] == RowToFilm(mpa, ids[i], rows[ids[i]]) && r[i].id == ids[i]
    decreases |ids|
  {
    if ids == [] then []
    else [RowToFilm(mpa, ids[0], rows[ids[0]])] + QueryFilms(mpa, rows, ids[1..])
  }

  /** A film as getTopFilms returns it: its row, its genres ascending by id,
      and as likes the users joined to its film_likes rows. */
  function TopFilm(db: Database, id: int): (f: Film)
    reads db
    requires id in db.films
    ensures f.id == id && f.(genres := [], likes := {}) == RowToFilm(db.mpa, id, db.films[id])
    ensures db.Valid() ==> f.likes == Likers(db.filmLikes, id)
    ensures forall g :: g in f.genres <==> g in db.genres && (id, g.id) in db.filmGenres
    ensures SortedById(f.genres, GenreId)
    ensures db.Valid() ==> forall i, j :: 0 <= i < j < |f.genres| ==> f.genres[i].id < f.genres[j].id
  {
    if UniqueGenreIds(db.genres) then
      GenresByFilmIdStrictlyAscending(db.genres, db.filmGenres, id);
      Completed(db, RowToFilm(db.mpa, id, db.films[id]))
    else Completed(db, RowToFilm(db.mpa, id, db.films[id]))
  }

  /** The loop body of getTopFilms: the film's genres, then as likes the
      users joined to its film_likes rows. */
  function Completed(db: Database, f: Film): Film
    reads db
  {
    var likers := set u | u in Likers(db.filmLikes, f.id) && u in db.users;
    f.(genres := GetGenresByFilmId(db.genres, db.filmGenres, f.id), likes := likers)
  }

  /** The loop of getTopFilms: each film of the query result is completed in
      place, in list order. */
  method CompleteFilms(db: Database, films: seq<Film>) returns (out: seq<Film>)
    ensures |out| == |films|
    ensures forall j :: 0 <= j < |films| ==> out[j] == Completed(db, films[j])
  {
    out := films;
    var i := 0;
    while i < |out|
      invariant 0 <= i <= |out| && |out| == |films|
      invariant forall j :: 0 <= j < i ==> out[j] == Completed(db, films[j])
      invariant forall j :: i <= j < |out| ==> out[j] == films[j]
    {
      var done := Completed(db, films[i]);
      out := out[i := done];
      i := i + 1;
    }
  }

  /** getTopFilms: the first `count` films of the ranking (all of them when
      there are fewer), each completed with its genres and likes; a negative
      limit is refused by the database. */
  method GetTopFilms(db: Database, count: int) returns (r: Result<seq<Film>>)
    requires db.Valid()
    ensures count < 0 <==> r.Err?
    ensures r.Err? ==> r.error == InvalidLimit
    ensures r.Ok? ==> |r.value| == Min(count, |Ranking(db)|) == Min(count, |db.films|)
    ensures r.Ok? ==> forall i :: 0 <= i < |r.value| ==>
      && Ranking(db)[i] in db.films
      && r.value[i] == TopFilm(db, Ranking(db)[i])
  {
    if count < 0 {
      return Err(InvalidLimit);
    }
    RankingListsAllFilms(db);
    var ranked := Ranking(db);
    var n := Min(count, |ranked|);
    var films := QueryFilms(db.mpa, db.films, ranked[..n]);
    films := CompleteFilms(db, films);
    r := Ok(films);
  }

  // ---------------------------------------------------------------------------
  // getFilms
  // ---------------------------------------------------------------------------

  /** The query over all film ids, ascending, lists every film once. */
  lemma AllFilmsQueried(mpa: seq<Mpa>, rows: map<int, FilmRow>, last: int)
    requires forall id :: id in rows ==> 1 <= id <= last
    ensures var r := QueryFilms(mpa, rows, KeysUpTo(rows.Keys, last));
      && |r| == |rows|
      && (forall i :: 0 <= i < |r| ==> r[i].id in rows && r[i] == RowToFilm(mpa, r[i].id, rows[r[i].id]))
      && (forall id :: id in rows ==> exists i :: 0 <= i < |r| && r[i].id == id)
      && (forall i, j :: 0 <= i < j < |r| ==> r[i].id < r[j].id)
  {
    var ids := KeysUpTo(rows.Keys, last);
    KeysUpToCount(rows.Keys, last);
    var r := QueryFilms(mpa, rows, ids);
    forall i | 0 <= i < |r| ensures r[i].id in rows && r[i] == RowToFilm(mpa, r[i].id, rows[r[i].id]) {
      assert r[i].id == ids[i];
    }
    forall id | id in rows ensures exists i :: 0 <= i < |r| && r[i].id == id {
      assert id in ids;
      var i :| 0 <= i < |ids| && ids[i] == id;
      assert r[i].id == id;
    }
    forall i, j | 0 <= i < j < |r| ensures r[i].id < r[j].id {
      assert r[i].id == ids[i] && r[j].id == ids[j];
    }
  }

  /** Every film once, ascending by id, each with its row and rating and no
      genres or likes. */
  function GetFilms(db: Database): (r: seq<Film>)
    reads db
    requires db.Valid()
    ensures |r| == |db.films|
    ensures forall i :: 0 <= i < |r| ==>
      r[i].id in db.films && r[i] == RowToFilm(db.mpa, r[i].id, db.films[r[i].id])
    ensures forall id :: id in db.films ==> exists i :: 0 <= i < |r| && r[i].id == id
    ensures forall i, j :: 0 <= i < j < |r| ==> r[i].id < r[j].id
  {
    AllFilmsQueried(db.mpa, db.films, db.lastFilmId);
    QueryFilms(db.mpa, db.films, KeysUpTo(db.films.Keys, db.lastFilmId))
  }

  /** How many rows Films LEFT JOIN film_likes holds for a film: one per
      like, and one when it has none. */
  function JoinWidth(filmLikes: set<(int, int)>): Film -> nat {
    (f: Film) => if |Likers(filmLikes, f.id)| == 0 then 1 else |Likers(filmLikes, f.id)|
  }

  /** getFilms as written: the query maps every joined row to a film, so a
      film with several likes is listed once per like. */
  function GetFilmsAsWritten(db: Database): seq<Film>
    reads db
    requires db.Valid()
  {
    FanOut(GetFilms(db), JoinWidth(db.filmLikes))
  }

  /** The listing as written holds each film as often as it has likes (once
      when it has none), so a film liked twice appears twice. */
  lemma GetFilmsRepeatsLikedFilms(db: Database, id: int)
    requires db.Valid() && id in db.films
    ensures var f := RowToFilm(db.mpa, id, db.films[id]);
      && multiset(GetFilms(db))[f] == 1
      && multiset(GetFilmsAsWritten(db))[f] == if |Likers(db.filmLikes, id)| == 0 then 1 else |Likers(db.filmLikes, id)|
  {
    var f := RowToFilm(db.mpa, id, db.films[id]);
    var r := GetFilms(db);
    assert Distinct(r) by {
      forall i, j | 0 <= i < j < |r| ensures r[i] != r[j] {
        assert r[i].id < r[j].id;
      }
    }
    var i :| 0 <= i < |r| && r[i].id == id;
    assert r[i] == f;
    FanOutCount(r, JoinWidth(db.filmLikes), f);
    OnceWhenDistinct(r, i);
  }
}
