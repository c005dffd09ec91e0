# Filmorate storage and services in Dafny

Filmorate is a small film catalogue. Users like films and befriend each other.
The catalogue ranks films by likes. This project models its storage and
service core:

- **Entities** (`model.dfy`): films, users, genres, MPA ratings and dates. It
  also states the field constraints declared on Film and User, and User's
  id-only `equals`/`hashCode`.
- **The relational store** (`database.dfy`): the `Database` class has one
  field per table (Films, Users, film_genres, film_likes, user_friends, and
  the read-only Genres and MPA). Identity columns are counters. Three
  statements are methods of the class: inserting a film, deleting a film's
  genre links and inserting one genre link. Each keeps the primary-key and
  foreign-key rules, and a statement that would break one is refused and
  changes nothing. The storages issue their other statements by writing the
  fields directly, and they check the keys themselves before they write.
- **The database-backed storages**:
  - `genre_db_storage.dfy` and `mpa_db_storage.dfy`: read-only lookups, each
    list ascending by id.
  - `film_db_storage.dfy`: adding and updating films with their genre links,
    reading a film back, likes, the like ranking of getTopFilms, and the
    getFilms listing.
  - `user_db_storage.dfy`: validation with name defaulting, adding and
    updating users, directed friendship edges, common friends, and the
    getUsers listing.
- **The in-memory stores** (`in_memory_storage.dfy`): `InMemoryFilmStorage`
  and `InMemoryUserStorage` are classes. Each holds an id-keyed map and a
  counter that is never reused.
- **The services** (`film_service.dfy`, `user_service.dfy`): they run over the
  in-memory stores.
  - FilmService: its own validation, likes, and the popularity listing.
  - UserService: its own validation and two-way friendship.

Conventions:

- A thrown exception becomes an `Err`/`Fail` value that carries the
  exception's kind and message.
- Dereferencing a null value becomes `NullDereference`.
- A statement the database refuses becomes `IntegrityViolation`.
- The current date (`LocalDate.now()`) is a parameter `today`.
- Likes and friends are sets of user ids. User equality compares ids only, so
  a set of users and the set of their ids carry the same information.

## Model

| member | source | states |
|---|---|---|
| Model.Wrap32 | src/main/java/ru/yandex/practicum/filmorate/model/User.java:46-49 | the result is a 32-bit int congruent to the input modulo 2^32, as Java int arithmetic gives |
| Model.UserHashMatchesEquality | src/main/java/ru/yandex/practicum/filmorate/model/User.java:38-49 | for int ids, two users hash alike exactly when `equals` calls them the same user, so hashCode and equals agree |
| Model.WithDefaultName | src/main/java/ru/yandex/practicum/filmorate/storage/UserDbStorage.java:139-141 | a missing or blank name becomes the login, a non-blank name is kept, and no other field changes |
| Model.WithDefaultNameIdempotent | src/main/java/ru/yandex/practicum/filmorate/storage/InMemoryUserStorage.java:45-47 | defaulting a name a second time changes nothing |
| Common.SortByIdCorrect | src/main/java/ru/yandex/practicum/filmorate/storage/GenreDbStorage.java:34 | the stable sort by an integer key returns a permutation of its input in non-decreasing key order |
| Common.SortOrderedCorrect | src/main/java/ru/yandex/practicum/filmorate/storage/FilmDbStorage.java:161 | sorting distinct film ids by like count descending, then id ascending, returns a permutation strictly ordered that way |
| Common.StrictlyOrderedUnique | src/main/java/ru/yandex/practicum/filmorate/storage/FilmDbStorage.java:161 | the order is total: two lists of the same ids, both strictly ordered, are equal |
| Common.Dedup | src/main/java/ru/yandex/practicum/filmorate/storage/FilmDbStorage.java:56-57 | collapsing equal entries leaves no entry twice, adds nothing and loses no entry |
| Common.FanOutCount | src/main/java/ru/yandex/practicum/filmorate/storage/FilmDbStorage.java:126 | in a one-to-many outer join of distinct entries, each entry occurs exactly as often as its number of matching rows |
| Common.ElementsCard | src/main/java/ru/yandex/practicum/filmorate/storage/FilmDbStorage.java:59 | a list of ids has at most as many distinct ids as entries, and exactly as many iff no id repeats |
| Common.IntersectionCard | src/main/java/ru/yandex/practicum/filmorate/storage/FilmDbStorage.java:66-68 | of the ids asked for, the number found never exceeds the number asked, and equals it iff every id asked for exists |
| Database.Database.InsertFilm | src/main/java/ru/yandex/practicum/filmorate/storage/FilmDbStorage.java:75-87 | the row is stored under the next generated key, which was unused, and no other table changes |
| Database.Database.DeleteFilmGenres | src/main/java/ru/yandex/practicum/filmorate/storage/FilmDbStorage.java:108 | exactly the links of that film are removed |
| Database.Database.InsertFilmGenre | src/main/java/ru/yandex/practicum/filmorate/storage/FilmDbStorage.java:90-92 | the insert is accepted iff the film and the genre exist and the link is new; when accepted it adds exactly that link, otherwise nothing changes |
| GenreDbStorage.RowsWithIds | src/main/java/ru/yandex/practicum/filmorate/storage/GenreDbStorage.java:65-68 | the `IN` query returns exactly the table rows whose id is listed, each as often as the table holds it |
| GenreDbStorage.RowsWithIdsCount | src/main/java/ru/yandex/practicum/filmorate/storage/FilmDbStorage.java:61-66 | with unique ids, the number of rows found is the number of listed ids present in the table |
| GenreDbStorage.GetAllGenres | src/main/java/ru/yandex/practicum/filmorate/storage/GenreDbStorage.java:28-35 | every row exactly as often as stored (a permutation of the table), ascending by id |
| GenreDbStorage.GetGenreById | src/main/java/ru/yandex/practicum/filmorate/storage/GenreDbStorage.java:37-48 | present iff some row has the id, and then a row of the table with that id |
| GenreDbStorage.GetGenreByIdListed | src/main/java/ru/yandex/practicum/filmorate/storage/GenreDbStorage.java:28-48 | with unique ids, the lookup by id returns a genre iff getAllGenres lists it |
| GenreDbStorage.GetGenresByFilmId | src/main/java/ru/yandex/practicum/filmorate/storage/GenreDbStorage.java:50-57 | exactly the genres linked to the film, ascending by id, no row more often than the table holds it |
| GenreDbStorage.GenresByFilmIdStrictlyAscending | src/main/java/ru/yandex/practicum/filmorate/storage/GenreDbStorage.java:50-57 | over a table with unique ids, a film's genres come strictly ascending by id, so none is listed twice |
| GenreDbStorage.GetGenresByIds | src/main/java/ru/yandex/practicum/filmorate/storage/GenreDbStorage.java:59-74 | empty for a null or empty id collection; otherwise exactly the rows whose id is listed, ascending by id |
| GenreDbStorage.GenresByIdsOnce | src/main/java/ru/yandex/practicum/filmorate/storage/GenreDbStorage.java:59-74 | over a table with unique ids, no genre occurs twice however often its id is listed |
| MpaDbStorage.GetAllMpa | src/main/java/ru/yandex/practicum/filmorate/storage/MpaDbStorage.java:25-31 | every row exactly as often as stored, ascending by id |
| MpaDbStorage.GetMpaById | src/main/java/ru/yandex/practicum/filmorate/storage/MpaDbStorage.java:33-38 | present iff some row has the id, and then a row of the table with that id |
| MpaDbStorage.GetMpaByIdListed | src/main/java/ru/yandex/practicum/filmorate/storage/MpaDbStorage.java:25-38 | with unique ids, the lookup by id returns a rating iff getAllMpa lists it |
| FilmDbStorage.CheckMpaAsWritten | src/main/java/ru/yandex/practicum/filmorate/storage/FilmDbStorage.java:43-52 | the MPA check as written passes iff the rating is present and exists |
| FilmDbStorage.NullMpaCrashes | src/main/java/ru/yandex/practicum/filmorate/storage/FilmDbStorage.java:43 | as written, a film without a rating dereferences null and never gets the "MPA cannot be null" rejection |
| FilmDbStorage.CheckMpa | src/main/java/ru/yandex/practicum/filmorate/storage/FilmDbStorage.java:43-52 | (corrected) passes iff the rating is present and exists; a missing rating is a validation error, an unknown one is "MPA not found" |
| FilmDbStorage.CheckMpaDiffersOnlyOnNull | src/main/java/ru/yandex/practicum/filmorate/storage/FilmDbStorage.java:43-52 | the check as written and the corrected check agree exactly on films that have a rating |
| FilmDbStorage.DedupIdsDistinct | src/main/java/ru/yandex/practicum/filmorate/storage/FilmDbStorage.java:56-59 | after equal genres are collapsed, no id repeats iff the input never gave one id two different names |
| FilmDbStorage.CheckGenresMeaning | src/main/java/ru/yandex/practicum/filmorate/storage/FilmDbStorage.java:54-73 | the genre check (CheckGenres) passes iff every genre id exists and no id is given two names; a failure reports the listed ids that Genres lacks, which is the empty set when the only fault is an id with two names |
| FilmDbStorage.GetFilmById | src/main/java/ru/yandex/practicum/filmorate/storage/FilmDbStorage.java:133-153 | absent iff no row has the id; otherwise the row's columns and rating as mapRowToFilm maps them (RowToFilm), exactly the linked genres strictly ascending by id (so none twice), and no likes |
| FilmDbStorage.InsertGenreLinks | src/main/java/ru/yandex/practicum/filmorate/storage/FilmDbStorage.java:89-94 | inserts one link per genre in list order; it runs to the end iff no insert is refused, and otherwise stops at the first refused one, keeping the links written before it |
| FilmDbStorage.LinksAcceptedIff | src/main/java/ru/yandex/practicum/filmorate/storage/FilmDbStorage.java:109-113 | for a film with no links, no insert is refused iff every genre exists and no genre id repeats |
| FilmDbStorage.FreshLinksRead | src/main/java/ru/yandex/practicum/filmorate/storage/FilmDbStorage.java:108-113 | links written for a film that had none name exactly the ids of its genres |
| FilmDbStorage.LinkedGenresReadBack | src/main/java/ru/yandex/practicum/filmorate/storage/FilmDbStorage.java:151 | a film whose links name given ids reads back with genres of exactly those ids |
| FilmDbStorage.WriteNewFilm | src/main/java/ru/yandex/practicum/filmorate/storage/FilmDbStorage.java:75-94 | once both checks pass, the film gets the next key, one link per distinct genre is written, and the film reads back with the same genre ids |
| FilmDbStorage.AddFilm | src/main/java/ru/yandex/practicum/filmorate/storage/FilmDbStorage.java:40-98 | (corrected: uses CheckMpa, so a film without a rating is refused with "MPA cannot be null" rather than dereferenced) the MPA check runs first, then the genre check, each failure writing nothing; on success it returns the film with the new id and its distinct genres, and the film reads back |
| FilmDbStorage.UpdateFilm | src/main/java/ru/yandex/practicum/filmorate/storage/FilmDbStorage.java:100-118 | an unknown id is "Film not found" and writes nothing; a rating absent from MPA is refused by the foreign key and writes nothing; otherwise the row is replaced, the film's links are deleted and rebuilt, and it succeeds iff every genre exists and no genre id repeats; a refused link leaves the links written before it (no rollback) |
| FilmDbStorage.AddLike | src/main/java/ru/yandex/practicum/filmorate/storage/FilmDbStorage.java:201-204 | accepted iff the film and the user exist and the like is new; then the film has exactly one more liker, otherwise nothing changes |
| FilmDbStorage.RemoveLike | src/main/java/ru/yandex/practicum/filmorate/storage/FilmDbStorage.java:206-209 | exactly that like is gone and the film's likers lose that user; nothing else changes |
| FilmDbStorage.RankingListsAllFilms | src/main/java/ru/yandex/practicum/filmorate/storage/FilmDbStorage.java:157-162 | the ranking query (Ranking) lists every film, once each, and nothing else |
| FilmDbStorage.RankingOrdersAllFilms | src/main/java/ru/yandex/practicum/filmorate/storage/FilmDbStorage.java:157-162 | the ranking query (Ranking) is ordered by like count descending, then id ascending |
| FilmDbStorage.RankingIsTheOrder | src/main/java/ru/yandex/practicum/filmorate/storage/FilmDbStorage.java:161 | any list of all films in that order is the ranking |
| FilmDbStorage.TopFilm | src/main/java/ru/yandex/practicum/filmorate/storage/FilmDbStorage.java:164-170 | a ranked film carries its row, exactly its linked genres strictly ascending by id, and exactly its likers as likes |
| FilmDbStorage.CompleteFilms | src/main/java/ru/yandex/practicum/filmorate/storage/FilmDbStorage.java:164-170 | the loop completes every film of the list, in place and in order |
| FilmDbStorage.GetTopFilms | src/main/java/ru/yandex/practicum/filmorate/storage/FilmDbStorage.java:155-172 | a negative limit is refused; otherwise the first min(count, number of films) films of the ranking, each completed |
| FilmDbStorage.GetFilms | src/main/java/ru/yandex/practicum/filmorate/storage/FilmDbStorage.java:120-131 | (corrected) every film exactly once, ascending by id, each as its row maps (RowToFilm) |
| FilmDbStorage.GetFilmsRepeatsLikedFilms | src/main/java/ru/yandex/practicum/filmorate/storage/FilmDbStorage.java:120-131 | the corrected listing holds a film once, while the listing as written (GetFilmsAsWritten) holds it once per like (once if it has none) |
| UserDbStorage.Validate | src/main/java/ru/yandex/practicum/filmorate/storage/UserDbStorage.java:138-153 | the name is defaulted first; then email, login and birthday are checked in that order with their messages (a null email or login is dereferenced); the user passes iff it is storable |
| UserDbStorage.ValidatedUsersMeetConstraints | src/main/java/ru/yandex/practicum/filmorate/storage/UserDbStorage.java:148-152 | a validated user has a non-blank name and meets the declared constraints, except that a birthday of today passes validation although it is not in the past |
| UserDbStorage.ConstrainedUsersPass | src/main/java/ru/yandex/practicum/filmorate/model/User.java:21-31 | a user meeting the declared constraints, with a birthday, an '@' in the email and no space in the login, passes validation |
| UserDbStorage.GetUserById | src/main/java/ru/yandex/practicum/filmorate/storage/UserDbStorage.java:84-99 | absent iff no row has the id; otherwise the row as mapRowToUser maps it (UserFromRow), with exactly the targets of its outgoing edges (OutEdges, the loadFriends query) as friends |
| UserDbStorage.AddUser | src/main/java/ru/yandex/practicum/filmorate/storage/UserDbStorage.java:32-48 | an invalid user is refused and nothing is written; otherwise the validated user gets the next key and reads back without friends |
| UserDbStorage.UpdateUser | src/main/java/ru/yandex/practicum/filmorate/storage/UserDbStorage.java:50-65 | validation comes first, then an unknown id is "User not found" with nothing written; otherwise the row is replaced and reads back with its existing friends |
| UserDbStorage.AddFriend | src/main/java/ru/yandex/practicum/filmorate/storage/UserDbStorage.java:101-104 | accepted iff both users exist and the directed edge is new; only that edge is added, with status CONFIRMED, and no other user's edges change |
| UserDbStorage.RemoveFriend | src/main/java/ru/yandex/practicum/filmorate/storage/UserDbStorage.java:106-109 | exactly that directed edge is gone; no other user's edges change |
| UserDbStorage.GetCommonFriends | src/main/java/ru/yandex/practicum/filmorate/storage/UserDbStorage.java:111-126 | one user per id, exactly the stored users that both given users have an edge to |
| UserDbStorage.CommonFriendsSymmetric | src/main/java/ru/yandex/practicum/filmorate/storage/UserDbStorage.java:111-126 | common friends do not depend on which user is named first |
| UserDbStorage.GetUsers | src/main/java/ru/yandex/practicum/filmorate/storage/UserDbStorage.java:67-82 | (corrected) every user exactly once, ascending by id, each as its row maps (UserFromRow) |
| UserDbStorage.GetUsersRepeatsUsersWithFriends | src/main/java/ru/yandex/practicum/filmorate/storage/UserDbStorage.java:67-82 | the corrected listing holds a user once, while the listing as written (GetUsersAsWritten) holds it once per outgoing friendship (once if it has none) |
| InMemoryStorage.InMemoryFilmStorage.constructor | src/main/java/ru/yandex/practicum/filmorate/storage/InMemoryFilmStorage.java:25-26 | the store starts empty with the counter at 0 |
| InMemoryStorage.InMemoryFilmStorage.Create | src/main/java/ru/yandex/practicum/filmorate/storage/InMemoryFilmStorage.java:28-36 | the film gets the next counter value, which was unused, as its id, whatever id it came with, and is stored under it |
| InMemoryStorage.InMemoryFilmStorage.Update | src/main/java/ru/yandex/practicum/filmorate/storage/InMemoryFilmStorage.java:38-51 | an unknown id is NotFound with the source's message and changes nothing; otherwise only that entry is replaced |
| InMemoryStorage.InMemoryFilmStorage.Delete | src/main/java/ru/yandex/practicum/filmorate/storage/InMemoryFilmStorage.java:53-61 | an unknown id is NotFound and changes nothing; otherwise only that key is removed and the counter is kept, so no id is reused |
| InMemoryStorage.InMemoryFilmStorage.GetFilmById | src/main/java/ru/yandex/practicum/filmorate/storage/InMemoryFilmStorage.java:63-66 | present iff the id is stored, and then the stored film, which carries that id |
| InMemoryStorage.InMemoryFilmStorage.GetAllFilms | src/main/java/ru/yandex/practicum/filmorate/storage/InMemoryFilmStorage.java:68-71 | every stored film exactly once |
| InMemoryStorage.InMemoryUserStorage.constructor | src/main/java/ru/yandex/practicum/filmorate/storage/InMemoryUserStorage.java:20-21 | the store starts empty with the counter at 0 |
| InMemoryStorage.InMemoryUserStorage.Create | src/main/java/ru/yandex/practicum/filmorate/storage/InMemoryUserStorage.java:23-35 | the user gets the next counter value as its id and its name defaulted to the login, and is stored under that id |
| InMemoryStorage.InMemoryUserStorage.Update | src/main/java/ru/yandex/practicum/filmorate/storage/InMemoryUserStorage.java:37-53 | an unknown id is NotFound and changes nothing; otherwise the name is defaulted and only that entry is replaced |
| InMemoryStorage.InMemoryUserStorage.GetUserById | src/main/java/ru/yandex/practicum/filmorate/storage/InMemoryUserStorage.java:55-58 | present iff the id is stored, and then the stored user, which carries that id |
| InMemoryStorage.InMemoryUserStorage.UsersWithIds | src/main/java/ru/yandex/practicum/filmorate/services/UserService.java:71-74 | ids with no stored user are dropped; the others give the stored users, one per id |
| InMemoryStorage.InMemoryUserStorage.GetAllUsers | src/main/java/ru/yandex/practicum/filmorate/storage/InMemoryUserStorage.java:60-63 | every stored user exactly once |
| FilmService.ValidateFilm | src/main/java/ru/yandex/practicum/filmorate/services/FilmService.java:80-103 | passes iff the film is present with a non-empty name, a description of at most 200 characters, a release date no earlier than 1895-12-28 and a positive duration; otherwise the message of the first failing check, in the order null film, name, description, release date, duration |
| FilmService.BoundariesAccepted | src/main/java/ru/yandex/practicum/filmorate/services/FilmService.java:91-98 | a 200-character description and a release on 1895-12-28 are both accepted |
| FilmService.AcceptedFilmsMeetDeclared | src/main/java/ru/yandex/practicum/filmorate/services/FilmService.java:86-89 | an accepted film meets Film's declared constraints iff its name is not blank: the check is for emptiness, not blankness |
| FilmService.BlankNameAccepted | src/main/java/ru/yandex/practicum/filmorate/services/FilmService.java:86-89 | a film named with one space passes validateFilm but breaks the declared @NotBlank |
| FilmService.DeclaredFilmsPass | src/main/java/ru/yandex/practicum/filmorate/model/Film.java:26-40 | a film meeting the declared constraints, with a description and a release date no earlier than 1895-12-28, passes validateFilm |
| FilmService.PopularFilms | src/main/java/ru/yandex/practicum/filmorate/services/FilmService.java:44-51 | a count that is not positive is refused with the source's message; otherwise min(count, number of films) films |
| FilmService.PopularFilmsCut | src/main/java/ru/yandex/practicum/filmorate/services/FilmService.java:50 | the listing is a prefix of a permutation of the films sorted by like count, highest first |
| FilmService.PopularFilmsOrdered | src/main/java/ru/yandex/practicum/filmorate/services/FilmService.java:50 | the listing takes each film at most as often as the films hold it, and its like counts never increase |
| FilmService.PopularFilmsTopK | src/main/java/ru/yandex/practicum/filmorate/services/FilmService.java:50 | no film left out has more likes than any film listed |
| FilmService.GetPopularFilms | src/main/java/ru/yandex/practicum/filmorate/services/FilmService.java:44-51 | refused iff count is not positive; otherwise min(count, number of stored films) stored films, in non-increasing like count, and no stored film left out has more likes than a listed one |
| FilmService.Create | src/main/java/ru/yandex/practicum/filmorate/services/FilmService.java:58-63 | an invalid film is refused and nothing is stored; otherwise the film is stored under the next id and the counter moves to that id |
| FilmService.Update | src/main/java/ru/yandex/practicum/filmorate/services/FilmService.java:65-71 | validation comes first; then an unknown id is NotFound; nothing is written on either failure; otherwise only that film is replaced |
| FilmService.Liked | src/main/java/ru/yandex/practicum/filmorate/services/FilmService.java:29 | the film gains the like, and nothing else about it changes |
| FilmService.Unliked | src/main/java/ru/yandex/practicum/filmorate/services/FilmService.java:39 | the film loses the like, and nothing else about it changes |
| FilmService.LikeRoundTrip | src/main/java/ru/yandex/practicum/filmorate/services/FilmService.java:25-42 | removing a new like restores the film, adding an existing like twice counts once, and a new like adds exactly one |
| FilmService.AddLike | src/main/java/ru/yandex/practicum/filmorate/services/FilmService.java:25-32 | the film is looked up first, then the user, each failure NotFound with nothing written; on success only that film changes, gaining the like |
| FilmService.RemoveLike | src/main/java/ru/yandex/practicum/filmorate/services/FilmService.java:34-42 | the same lookups in the same order; on success only that film changes, losing the like |
| UserService.ValidateUser | src/main/java/ru/yandex/practicum/filmorate/services/UserService.java:105-135 | passes iff email, login and birthday are valid; otherwise the message of the first failing check, in that order |
| UserService.AcceptedUsersMeetDeclared | src/main/java/ru/yandex/practicum/filmorate/services/UserService.java:125-135 | an accepted user meets User's declared constraints iff its login is not blank |
| UserService.EmptyLoginAccepted | src/main/java/ru/yandex/practicum/filmorate/services/UserService.java:129-131 | a user with an empty login passes validateUser but breaks the declared @NotBlank |
| UserService.BornTodayRefused | src/main/java/ru/yandex/practicum/filmorate/services/UserService.java:133-135 | a birthday of today is refused |
| UserService.Create | src/main/java/ru/yandex/practicum/filmorate/services/UserService.java:82-87 | an invalid user is refused and nothing is stored; otherwise the user, name defaulted, is stored under the next id and the counter moves to that id |
| UserService.Update | src/main/java/ru/yandex/practicum/filmorate/services/UserService.java:89-95 | a null user is dereferenced; the id is looked up before validation, so an unknown id is NotFound even for an invalid user; nothing is written on any failure; otherwise the validated user, name defaulted, replaces only that entry |
| UserService.FriendsAdded | src/main/java/ru/yandex/practicum/filmorate/services/UserService.java:33-36 | each user gets the other as a friend and keeps its other friends and every other field; every other user is unchanged |
| UserService.FriendsRemoved | src/main/java/ru/yandex/practicum/filmorate/services/UserService.java:49-52 | each user loses the other as a friend and keeps its other friends and every other field; every other user is unchanged |
| UserService.FriendshipStaysSymmetric | src/main/java/ru/yandex/practicum/filmorate/services/UserService.java:24-54 | adding and removing a friendship both keep friendship symmetric |
| UserService.FriendshipRoundTrip | src/main/java/ru/yandex/practicum/filmorate/services/UserService.java:40-54 | removing a friendship just added restores both users |
| UserService.AddFriend | src/main/java/ru/yandex/practicum/filmorate/services/UserService.java:24-38 | oneself is refused before any lookup, then the user and the friend are looked up in that order; on success both are updated, and symmetry is preserved |
| UserService.DeleteFriend | src/main/java/ru/yandex/practicum/filmorate/services/UserService.java:40-54 | the same checks in the same order; on success each loses the other as a friend, and symmetry is preserved |
| UserService.GetFriends | src/main/java/ru/yandex/practicum/filmorate/services/UserService.java:68-75 | an unknown user is NotFound; otherwise one entry per id, exactly the stored users among its friend ids |
| UserService.GetMutualFriends | src/main/java/ru/yandex/practicum/filmorate/services/UserService.java:56-66 | the first user, then the second, must exist; the result is exactly the stored users in both friend sets, one per id |
| UserService.MutualFriendsSymmetric | src/main/java/ru/yandex/practicum/filmorate/services/UserService.java:56-66 | mutual friends do not depend on which user is named first |

## Left out

- FilmDbStorage.AddFilm: uses the corrected MPA check (CheckMpa). A film
  without a rating is refused with "MPA cannot be null" and nothing is
  written, where the source dereferences the null rating; the as-written
  behaviour is CheckMpaAsWritten (see "## Findings").
- Logging, Spring wiring, the controllers, GenreService, MPAService and the
  exception handler are not part of this model. Only the storages and services
  are.
- Film.addLike, Film.removeLike and Film.getLikeScore, and User.addFriend,
  User.removeFriend and User.getFriendsList are called by the services but
  not declared in Film.java or User.java. They are modelled as adding an id to
  or removing it from the likes or friends set. The like score is modelled as
  the set itself.
- Likes and friends are sets of user ids, not sets of User objects. Since
  User equality compares ids only, no information is lost, except that the
  friend objects getTopFilms and loadFriends attach carry the users' other
  columns.
- The database schema is not among the files of this model. Its keys are
  assumed:
  - unique ids for Genres and MPA;
  - identity columns for Films and Users;
  - composite primary keys on film_genres, film_likes and user_friends;
  - foreign keys from each of them.
  A statement that breaks one is refused as `IntegrityViolation`, and the
  database's own message and exception type are not modelled.
- FilmDbStorage.GetTopFilms: a negative LIMIT is modelled as refused
  (`InvalidLimit`), because the database engine's treatment of it is not
  visible here.
- HashSet/HashMap iteration order is not modelled:
  - Collapsing equal genres in addFilm keeps the first occurrence in list
    order.
  - getCommonFriends, getFriends, getMutualFriends and getAllFilms/getAllUsers
    of the in-memory stores return ascending id order.
  - getPopularFilms' order among films with equal like counts is that of a
    stable sort of that listing.
- The @Email format check, UTF-16 string lengths and Java's `String.contains`
  on surrogate pairs are not modelled. Strings are sequences of characters,
  and `isBlank` uses Java's whitespace set.
- Integer ids and counters are unbounded: the wrap-around of the identity
  columns and of AtomicInteger past 2^31 - 1 is not modelled.
- UserDbStorage.Validate returns the user with its name defaulted rather than
  changing the caller's object. The source also changes the caller's name
  before a later check can throw; the model does not.
- The services' in-place changes to objects the caller still holds (the film
  returned by the store is the same object that is stored) are modelled as
  values written back through `update`.
- Concurrency is not modelled: the storages are taken to run one statement at
  a time, without transactions, which the source does not use.
- getFilmById's `likes` is always empty because the query never fills it.
  The model states this rather than filling it in.

## Findings

| source | as written | input that shows it | evidently intended | confidence | as-written member | corrected member |
|---|---|---|---|---|---|---|
| src/main/java/ru/yandex/practicum/filmorate/storage/FilmDbStorage.java:43 | `mpa != null \|\| mpa.getName() != null`: the right operand runs only when the rating is null, and it dereferences that null | a film with no MPA rating | a film without a rating is rejected with "MPA cannot be null" | not executed | FilmDbStorage.NullMpaCrashes | FilmDbStorage.CheckMpa |
| src/main/java/ru/yandex/practicum/filmorate/storage/FilmDbStorage.java:120-131 | getFilms maps every row of `Films LEFT JOIN film_likes` to a film, so a film is listed once per like | a film liked by two users is listed twice | each film listed once | not executed | FilmDbStorage.GetFilmsRepeatsLikedFilms | FilmDbStorage.GetFilms |
| src/main/java/ru/yandex/practicum/filmorate/storage/UserDbStorage.java:67-82 | getUsers maps every row of `Users LEFT JOIN user_friends` to a user, so a user is listed once per outgoing friendship | a user with two friends is listed twice | each user listed once | not executed | UserDbStorage.GetUsersRepeatsUsersWithFriends | UserDbStorage.GetUsers |
