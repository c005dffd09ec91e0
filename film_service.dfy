/** The film service over the in-memory stores: its own validation, the
    popularity listing, and likes recorded on the stored film. */
module FilmService {
  import opened Common
  import opened Model
  import opened InMemoryStorage

  // ---------------------------------------------------------------------------
  // validateFilm
  // ---------------------------------------------------------------------------

  /** What validateFilm accepts: a non-empty name, a description of at most
      200 characters, a release date no earlier than 1895-12-28 and a
      positive duration, each present. */
  predicate AcceptableFilm(f: Film) {
    && f.name.Some? && |f.name.value| > 0
    && f.description.Some? && |f.description.value| <= MaxDescriptionLength
    && f.releaseDate.Some? && !IsBefore(f.releaseDate.value, MinReleaseDate)
    && f.duration > 0
  }

  /** validateFilm: the checks run in field order and the first failure is
      reported. */
  function ValidateFilm(film: Option<Film>): (r: Outcome)
    ensures r == Pass <==> film.Some? && AcceptableFilm(film.value)
    ensures r != Pass ==> r.error.Validation?
    ensures film.None? ==> r == Fail(Validation("Film cannot be null"))
    ensures film.Some? && (film.value.name.None? || film.value.name.value == "") ==>
      r == Fail(Validation("Film name cannot be empty"))
    ensures film.Some? && film.value.name.Some? && film.value.name.value != "" ==>
      (film.value.description.None? || |film.value.description.value| > MaxDescriptionLength ==>
         r == Fail(Validation("Film description length should be up to 200 characters")))
    ensures film.Some? && film.value.name.Some? && film.value.name.value != "" &&
            film.value.description.Some? && |film.value.description.value| <= MaxDescriptionLength ==>
      && (film.value.releaseDate.None? || IsBefore(film.value.releaseDate.value, MinReleaseDate) ==>
            r == Fail(Validation("Film release date cannot be before December 28, 1895")))
      && (film.value.releaseDate.Some? && !IsBefore(film.value.releaseDate.value, MinReleaseDate) &&
          film.value.duration <= 0 ==>
            r == Fail(Validation("Film duration must be positive")))
  {
    if film.None? then Fail(Validation("Film cannot be null"))
    else
      var f := film.value;
      if f.name.None? || |f.name.value| == 0 then Fail(Validation("Film name cannot be empty"))
      else if f.description.None? || |f.description.value| > 200 then
        Fail(Validation("Film description length should be up to 200 characters"))
      else if f.releaseDate.None? || IsBefore(f.releaseDate.value, Date(1895, 12, 28)) then
        Fail(Validation("Film release date cannot be before December 28, 1895"))
      else if f.duration <= 0 then Fail(Validation("Film duration must be positive"))
      else Pass
  }

  /** The boundaries are accepted: a description of exactly 200 characters and
      a release on 1895-12-28. */
  lemma BoundariesAccepted(f: Film)
    requires f.name.Some? && |f.name.value| > 0 && f.duration > 0
    requires f.description.Some? && |f.description.value| == MaxDescriptionLength
    requires f.releaseDate == Some(MinReleaseDate)
    ensures ValidateFilm(Some(f)) == Pass
  {
  }

  /** A film accepted by validateFilm meets the declared constraints unless its
      name is blank: the check is for emptiness, not blankness, so a name of
      one space passes although the declared constraint rejects it. */
  lemma AcceptedFilmsMeetDeclared(f: Film)
    requires ValidateFilm(Some(f)) == Pass
    ensures !IsBlank(f.name.value) <==> FilmConstraintsHold(f)
  {
  }

  /** The counterexample: a one-space name passes validateFilm. */
  lemma BlankNameAccepted()
    ensures var f := NewFilm.(name := Some(" "), description := Some(""),
                              releaseDate := Some(MinReleaseDate), duration := 1);
      ValidateFilm(Some(f)) == Pass && !FilmConstraintsHold(f)
  {
    var s := " ";
    assert IsWhitespace(s[0]);
    assert IsBlank(s);
  }

  /** Conversely, a film meeting the declared constraints that has a
      description and a release date no earlier than 1895-12-28 passes. */
  lemma DeclaredFilmsPass(f: Film)
    requires FilmConstraintsHold(f)
    requires f.description.Some? && f.releaseDate.Some? && !IsBefore(f.releaseDate.value, MinReleaseDate)
    ensures ValidateFilm(Some(f)) == Pass
  {
    assert f.name.value != "" by {
      if f.name.value == "" {
        assert IsBlank(f.name.value);
      }
    }
  }

  // ---------------------------------------------------------------------------
  // getPopularFilms
  // ---------------------------------------------------------------------------

  /** The sort key: films with more likes come first. */
  function LikeScore(f: Film): int {
    -|f.likes|
  }

  /** getPopularFilms over the stored films: a stable sort by like count,
      highest first, cut to `count` entries; a count that is not positive is
      refused. */
  function PopularFilms(films: seq<Film>, count: int): (r: Result<seq<Film>>)
    ensures count <= 0 <==> r.Err?
    ensures r.Err? ==> r.error == Validation("Count must be greater than 0")
    ensures r.Ok? ==> |r.value| == Min(count, |films|)
  {
    if count <= 0 then Err(Validation("Count must be greater than 0"))
    else
      var sorted := SortById(films, LikeScore);
      SortByIdCorrect(films, LikeScore);
      assert |sorted| == |multiset(sorted)| == |films|;
      Ok(sorted[..Min(count, |films|)])
  }

  /** The sorted films and the cut that getPopularFilms keeps. */
  lemma PopularFilmsCut(films: seq<Film>, count: int)
    requires count > 0
    ensures var sorted := SortById(films, LikeScore);
      && multiset(sorted) == multiset(films)
      && |sorted| == |films|
      && SortedById(sorted, LikeScore)
      && PopularFilms(films, count).value == sorted[..Min(count, |films|)]
  {
    SortByIdCorrect(films, LikeScore);
    var sorted := SortById(films, LikeScore);
    assert |sorted| == |multiset(sorted)| == |films|;
  }

  /** The listing takes no film more often than the films hold it, and its
      like counts never increase. */
  lemma PopularFilmsOrdered(films: seq<Film>, count: int)
    requires count > 0
    ensures var r := PopularFilms(films, count).value;
      && multiset(r) <= multiset(films)
      && (forall i :: 0 <= i < |r| ==> r[i] in films)
      && (forall i, j :: 0 <= i < j < |r| ==> |r[i].likes| >= |r[j].likes|)
  {
    var sorted := SortById(films, LikeScore);
    PopularFilmsCut(films, count);
    var n := Min(count, |films|);
    var r := sorted[..n];
    assert sorted == r + sorted[n..];
    assert multiset(sorted) == multiset(r) + multiset(sorted[n..]);
    forall i | 0 <= i < |r| ensures r[i] in films {
      assert r[i] in multiset(films);
    }
    forall i, j | 0 <= i < j < |r| ensures |r[i].likes| >= |r[j].likes| {
      assert LikeScore(sorted[i]) <= LikeScore(sorted[j]);
    }
  }

  /** No film left out of the listing has more likes than one listed. */
  lemma PopularFilmsTopK(films: seq<Film>, count: int)
    requires count > 0
    ensures var r := PopularFilms(films, count).value;
      forall f, i :: f in films && f !in r && 0 <= i < |r| ==> |f.likes| <= |r[i].likes|
  {
    var sorted := SortById(films, LikeScore);
    PopularFilmsCut(films, count);
    var n := Min(count, |films|);
    var r := sorted[..n];
    forall f, i | f in films && f !in r && 0 <= i < |r| ensures |f.likes| <= |r[i].likes| {
      assert f in multiset(sorted);
      var k :| 0 <= k < |sorted| && sorted[k] == f;
      assert LikeScore(sorted[i]) <= LikeScore(sorted[k]);
    }
  }

  /** getPopularFilms: the popularity listing of the stored films. */
  function GetPopularFilms(store: InMemoryFilmStorage, count: int): (r: Result<seq<Film>>)
    reads store
    requires store.Valid()
    ensures count <= 0 <==> r.Err?
    ensures r.Ok? ==> |r.value| == Min(count, |store.films|)
    ensures r.Ok? ==> forall i :: 0 <= i < |r.value| ==> r.value[i].id in store.films && r.value[i] == store.films[r.value[i].id]
    ensures r.Ok? ==> forall i, j :: 0 <= i < j < |r.value| ==> |r.value[i].likes| >= |r.value[j].likes|
    ensures r.Ok? ==> forall id, i :: id in store.films && store.films[id] !in r.value && 0 <= i < |r.value| ==>
      |store.films[id].likes| <= |r.value[i].likes|
  {
    var all := store.GetAllFilms();
    var r := PopularFilms(all, count);
    if r.Ok? then
      PopularFilmsOrdered(all, count);
      PopularFilmsTopK(all, count);
      forall id | id in store.films ensures store.films[id] in all {
        var k :| 0 <= k < |all| && all[k].id == id;
      }
      ListedFilmsStored(store, all, r.value);
      r
    else r
  }

  /** Entries taken from the store's listing are stored films. */
  lemma ListedFilmsStored(store: InMemoryFilmStorage, all: seq<Film>, r: seq<Film>)
    requires store.Valid() && all == store.GetAllFilms()
    requires forall i :: 0 <= i < |r| ==> r[i] in all
    ensures forall i :: 0 <= i < |r| ==> r[i].id in store.films && r[i] == store.films[r[i].id]
  {
    forall i | 0 <= i < |r| ensures r[i].id in store.films && r[i] == store.films[r[i].id] {
      var k :| 0 <= k < |all| && all[k] == r[i];
    }
  }

  // ---------------------------------------------------------------------------
  // create / update
  // ---------------------------------------------------------------------------

  /** create: a film failing validation is refused with nothing stored;
      otherwise the store assigns its id. */
  method Create(store: InMemoryFilmStorage, film: Option<Film>) returns (r: Result<Film>)
    requires store.Valid()
    modifies store
    ensures store.Valid()
    ensures ValidateFilm(film) != Pass ==> r == Err(ValidateFilm(film).error) && unchanged(store)
    ensures ValidateFilm(film) == Pass ==>
      && r == Ok(film.value.(id := old(store.idGenerator) + 1))
      && store.films == old(store.films)[r.value.id := r.value]
      && store.idGenerator == r.value.id
  {
    var check := ValidateFilm(film);
    if check != Pass {
      return Err(check.error);
    }
    var created := store.Create(film.value);
    r := Ok(created);
  }

  /** update: validation first, so an invalid film is refused even for an
      unknown id; a valid film with an unknown id is NotFound; nothing is
      written on either failure. */
  method Update(store: InMemoryFilmStorage, film: Option<Film>) returns (r: Result<Film>)
    requires store.Valid()
    modifies store
    ensures store.Valid()
    ensures ValidateFilm(film) != Pass ==> r == Err(ValidateFilm(film).error) && unchanged(store)
    ensures ValidateFilm(film) == Pass && film.value.id !in old(store.films) ==>
      r == Err(NotFound(NotFoundMessage("Film", film.value.id))) && unchanged(store)
    ensures ValidateFilm(film) == Pass && film.value.id in old(store.films) ==>
      r == Ok(film.value) && store.films == old(store.films)[film.value.id := film.value]
    ensures store.idGenerator == old(store.idGenerator)
  {
    var check := ValidateFilm(film);
    if check != Pass {
      return Err(check.error);
    }
    if store.GetFilmById(film.value.id).None? {
      return Err(NotFound(NotFoundMessage("Film", film.value.id)));
    }
    r := store.Update(film.value);
  }

  // ---------------------------------------------------------------------------
  // Likes
  // ---------------------------------------------------------------------------

  /** A film with one more like. */
  function Liked(f: Film, userId: int): (r: Film)
    ensures r.(likes := f.likes) == f
    ensures userId in r.likes && r.likes - {userId} == f.likes - {userId}
  {
    f.(likes := f.likes + {userId})
  }

  /** A film with one like fewer. */
  function Unliked(f: Film, userId: int): (r: Film)
    ensures r.(likes := f.likes) == f
    ensures userId !in r.likes && r.likes + {userId} == f.likes + {userId}
  {
    f.(likes := f.likes - {userId})
  }

  /** Removing a like undoes adding it, and adding one twice counts once. */
  lemma LikeRoundTrip(f: Film, userId: int)
    ensures userId !in f.likes ==> Unliked(Liked(f, userId), userId) == f
    ensures userId in f.likes ==> Liked(Unliked(f, userId), userId) == f
    ensures Liked(Liked(f, userId), userId) == Liked(f, userId)
    ensures |Liked(f, userId).likes| == if userId in f.likes then |f.likes| else |f.likes| + 1
  {
    if userId !in f.likes {
      assert Unliked(Liked(f, userId), userId).likes == f.likes;
    } else {
      assert Liked(Unliked(f, userId), userId).likes == f.likes;
      assert f.likes + {userId} == f.likes;
    }
  }

  /** addLike: the film is looked up first, then the user; on success only
      that film changes, gaining the like. */
  method AddLike(films: InMemoryFilmStorage, users: InMemoryUserStorage, filmId: int, userId: int)
    returns (r: Outcome)
    requires films.Valid()
    modifies films
    ensures films.Valid()
    ensures filmId !in old(films.films) ==> r == Fail(NotFound(NotFoundMessage("Film", filmId))) && unchanged(films)
    ensures filmId in old(films.films) && userId !in users.users ==>
      r == Fail(NotFound(NotFoundMessage("User", userId))) && unchanged(films)
    ensures filmId in old(films.films) && userId in users.users ==>
      r == Pass && films.films == old(films.films)[filmId := Liked(old(films.films)[filmId], userId)]
    ensures films.idGenerator == old(films.idGenerator)
  {
    var found := films.GetFilmById(filmId);
    if found.None? {
      return Fail(NotFound(NotFoundMessage("Film", filmId)));
    }
    if users.GetUserById(userId).None? {
      return Fail(NotFound(NotFoundMessage("User", userId)));
    }
    var updated := films.Update(Liked(found.value, userId));
    r := Pass;
  }

  /** removeLike: the same lookups; on success only that film changes,
      losing the like, which is no change when there was none. */
  method RemoveLike(films: InMemoryFilmStorage, users: InMemoryUserStorage, filmId: int, userId: int)
    returns (r: Outcome)
    requires films.Valid()
    modifies films
    ensures films.Valid()
    ensures filmId !in old(films.films) ==> r == Fail(NotFound(NotFoundMessage("Film", filmId))) && unchanged(films)
    ensures filmId in old(films.films) && userId !in users.users ==>
      r == Fail(NotFound(NotFoundMessage("User", userId))) && unchanged(films)
    ensures filmId in old(films.films) && userId in users.users ==>
      r == Pass && films.films == old(films.films)[filmId := Unliked(old(films.films)[filmId], userId)]
    ensures films.idGenerator == old(films.idGenerator)
  {
    var found := films.GetFilmById(filmId);
    if found.None? {
      return Fail(NotFound(NotFoundMessage("Film", filmId)));
    }
    if users.GetUserById(userId).None? {
      return Fail(NotFound(NotFoundMessage("User", userId)));
    }
    var updated := films.Update(Unliked(found.value, userId));
    r := Pass;
  }
}
