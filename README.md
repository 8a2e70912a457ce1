# Filmorate core in Dafny

Filmorate is a film-rating service. Users register, make friends and like films.
Films carry an MPA rating and genres from fixed catalogues. The most-liked films
can be listed. This project models the core of the service:

- the two user backends: an in-memory one with nested maps, and a relational one with
  a `friendships(user_id, friend_id, status)` table;
- the relational film backend: the `films`, `film_genres` and `likes` tables, genre
  de-duplication, replace-all genre update, and the popularity query;
- the film and user services: field validation, rating and genre resolution, the
  order in which ValidationException and NotFoundException are raised, and the rule
  that a blank display name defaults to the login;
- the legacy user controller with its own map and id counter.

Each store is a Dafny `class` whose fields are the tables, and each SQL statement
is modelled as the state change it denotes. Pure logic (validation, de-duplication,
ordering) is written as functions with lemmas. Loops in the source (`forEach`
inserts, the id-set check, `loadUserFriends`) are methods with loop invariants.
HashMap and HashSet iteration order is left open: such loops pick the next element
with `:|`, and the contracts speak only of sets. The request-dependent clock
(`LocalDate.now()`) is a `today` parameter.

Module layout:

- `model.dfy`: records, dates and Java string predicates;
- `collections.dfy`: generic sequence and map helpers;
- `in_memory_user_storage.dfy`, `user_db_storage.dfy` and `film_db_storage.dfy`: the stores;
- `ranking.dfy`: the order of the popularity query;
- `validation.dfy`: the field rules;
- `film_service.dfy` and `user_service.dfy`: the services;
- `user_controller.dfy`: the controller;
- `backends.dfy`: the in-memory and relational user backends compared.

Where the behaviour described for the system and the code differ, the model follows the code:

- `getCommonFriends` does not exclude either of the two users themselves.
- The login check rejects only the space character `' '`, not other whitespace.
- The popularity query orders by like count only. No tie-break by id is promised.
- Only in the in-memory backend:
  - `confirmFriend` creates the reverse edge when it is missing;
  - `removeFriend` removes both directions.
- In the relational backend:
  - `confirmFriend` updates only an existing row (friendId, userId);
  - `removeFriend` deletes the single row (userId, friendId).
- The service's `addFriend` takes the friendship status as a parameter. The call at
  src/main/java/ru/yandex/practicum/filmorate/service/UserService.java:64 passes none, and the storage interface requires one.

## Model

| member | source | states |
|---|---|---|
| Model.BeforeIsStrictOrder | src/main/java/ru/yandex/practicum/filmorate/service/FilmService.java:109 | the date order used by isBefore/isAfter is irreflexive, asymmetric, transitive and total on distinct dates |
| Collections.SortedSet | src/main/java/ru/yandex/practicum/filmorate/storage/FilmDbStorage.java:138 | the list has exactly the elements of the set, each once, strictly ascending |
| Collections.ListValues | src/main/java/ru/yandex/practicum/filmorate/storage/InMemoryUserStorage.java:31-33 | one value per key of the map, each equal to the map's entry for the matching key, in an unspecified key order |
| Collections.UsersWithIds | src/main/java/ru/yandex/practicum/filmorate/storage/InMemoryUserStorage.java:65-71 | the stored users whose ids are in the set, each once; the list length is the size of ids ∩ stored ids |
| InMemoryUsers.Edge | src/main/java/ru/yandex/practicum/filmorate/storage/InMemoryUserStorage.java:13 | an edge a→b exists exactly when b is a key of a's friend map |
| InMemoryUsers.LinkEdges | src/main/java/ru/yandex/practicum/filmorate/storage/InMemoryUserStorage.java:41-43 | Link, the computeIfAbsent+put, sets edge u→f to the status and leaves every other edge unchanged |
| InMemoryUsers.ConfirmEdges | src/main/java/ru/yandex/practicum/filmorate/storage/InMemoryUserStorage.java:46-52 | after Confirm, the two puts of confirmFriend, f→u is CONFIRMED, u→f is CONFIRMED exactly when it existed (or u = f), other edges unchanged |
| InMemoryUsers.UnlinkEdges | src/main/java/ru/yandex/practicum/filmorate/storage/InMemoryUserStorage.java:55-62 | after Unlink, the two removes of removeFriend, neither u→f nor f→u exists, and every other edge is unchanged |
| InMemoryUsers.AddConfirmRemoveLeavesNoEdge | src/main/java/ru/yandex/practicum/filmorate/storage/InMemoryUserStorage.java:41-62 | add a→b, confirm by b, then remove leaves no edge in either direction |
| InMemoryUsers.InMemoryUserStorage.constructor | src/main/java/ru/yandex/practicum/filmorate/storage/InMemoryUserStorage.java:12-14 | empty users and friendships, counter at 1 |
| InMemoryUsers.InMemoryUserStorage.Create | src/main/java/ru/yandex/practicum/filmorate/storage/InMemoryUserStorage.java:17-22 | the user gets the old counter as id and the counter is incremented; the user is stored under that id and given an empty friend map; when every stored id lies below the counter (`Issued`, which only Update can break, since it puts at any id), the new id was not stored before |
| InMemoryUsers.InMemoryUserStorage.Update | src/main/java/ru/yandex/practicum/filmorate/storage/InMemoryUserStorage.java:25-28 | the record is put at its own id whether present or not; every other stored id keeps its record |
| InMemoryUsers.InMemoryUserStorage.GetAll | src/main/java/ru/yandex/practicum/filmorate/storage/InMemoryUserStorage.java:31-33 | the list holds exactly the stored users, one per id |
| InMemoryUsers.InMemoryUserStorage.GetById | src/main/java/ru/yandex/practicum/filmorate/storage/InMemoryUserStorage.java:36-38 | present exactly when the id is stored, and then the stored user with that id |
| InMemoryUsers.InMemoryUserStorage.AddFriend | src/main/java/ru/yandex/practicum/filmorate/storage/InMemoryUserStorage.java:41-43 | edge userId→friendId gets the status, overwriting; all other edges, including the reverse, are unchanged |
| InMemoryUsers.InMemoryUserStorage.ConfirmFriend | src/main/java/ru/yandex/practicum/filmorate/storage/InMemoryUserStorage.java:46-52 | friendId→userId becomes CONFIRMED (created if absent); userId→friendId becomes CONFIRMED only if it existed; others unchanged |
| InMemoryUsers.InMemoryUserStorage.RemoveFriend | src/main/java/ru/yandex/practicum/filmorate/storage/InMemoryUserStorage.java:55-62 | no edge remains in either direction between the two; every other edge is unchanged (a no-op when none existed) |
| InMemoryUsers.InMemoryUserStorage.GetFriends | src/main/java/ru/yandex/practicum/filmorate/storage/InMemoryUserStorage.java:65-71 | exactly the stored users that are targets of userId's edges, in any status, each once; empty for an unknown user |
| InMemoryUsers.InMemoryUserStorage.GetCommonFriends | src/main/java/ru/yandex/practicum/filmorate/storage/InMemoryUserStorage.java:74-83 | exactly the stored users that are targets of edges of both users, each once |
| UserDb.Edge | src/main/java/ru/yandex/practicum/filmorate/storage/UserDbStorage.java:82 | a row status exists exactly when the key (a, b) is in the table |
| UserDb.Targets | src/main/java/ru/yandex/practicum/filmorate/storage/UserDbStorage.java:134 | the friend_id of exactly the rows owned by the user |
| UserDb.UpsertEdges | src/main/java/ru/yandex/practicum/filmorate/storage/UserDbStorage.java:81-85 | Upsert, the MERGE keyed by (user_id, friend_id), sets row (u, f) to the status and leaves every other row |
| UserDb.UpsertIsIdempotent | src/main/java/ru/yandex/practicum/filmorate/storage/UserDbStorage.java:81-85 | repeating the MERGE changes nothing, and the row count grows by one only when the key was new |
| UserDb.ConfirmRowEdges | src/main/java/ru/yandex/practicum/filmorate/storage/UserDbStorage.java:87-92 | ConfirmRow, the UPDATE, creates no row, confirms (f, u) only if present, and leaves every other row, including (u, f), unchanged |
| UserDb.DeleteRowEdges | src/main/java/ru/yandex/practicum/filmorate/storage/UserDbStorage.java:94-99 | DeleteRow, the DELETE, removes only row (u, f); the reverse row survives; a no-op when absent |
| UserDb.UserDbStorage.constructor | src/main/java/ru/yandex/practicum/filmorate/storage/UserDbStorage.java:20-21 | empty tables |
| UserDb.UserDbStorage.Create | src/main/java/ru/yandex/practicum/filmorate/storage/UserDbStorage.java:24-40 | the user is inserted under a fresh positive generated key; all other fields kept; getById of the new id returns it |
| UserDb.UserDbStorage.Update | src/main/java/ru/yandex/practicum/filmorate/storage/UserDbStorage.java:42-53 | the row at the id is rewritten if present; an absent id changes nothing; the key set never changes |
| UserDb.UserDbStorage.GetAll | src/main/java/ru/yandex/practicum/filmorate/storage/UserDbStorage.java:55-65 | exactly the stored users, one per row |
| UserDb.UserDbStorage.GetById | src/main/java/ru/yandex/practicum/filmorate/storage/UserDbStorage.java:67-79 | empty exactly when no row has the id; otherwise the row's user |
| UserDb.UserDbStorage.AddFriend | src/main/java/ru/yandex/practicum/filmorate/storage/UserDbStorage.java:81-85 | row (userId, friendId) gets the status; every other row is unchanged |
| UserDb.UserDbStorage.ConfirmFriend | src/main/java/ru/yandex/practicum/filmorate/storage/UserDbStorage.java:87-92 | row (friendId, userId) becomes CONFIRMED if present; no row is created; every other row is unchanged |
| UserDb.UserDbStorage.RemoveFriend | src/main/java/ru/yandex/practicum/filmorate/storage/UserDbStorage.java:94-99 | only row (userId, friendId) is deleted; every other row, including the reverse, is unchanged |
| UserDb.UserDbStorage.GetFriends | src/main/java/ru/yandex/practicum/filmorate/storage/UserDbStorage.java:101-107 | exactly the stored users that are friend_id of a row owned by userId, in any status, each once |
| UserDb.UserDbStorage.GetCommonFriends | src/main/java/ru/yandex/practicum/filmorate/storage/UserDbStorage.java:109-116 | exactly the stored users that are friend_id of rows owned by both users, each once |
| UserDb.UserDbStorage.LoadUserFriends | src/main/java/ru/yandex/practicum/filmorate/storage/UserDbStorage.java:133-145 | one entry per row owned by the user, mapping friend_id to that row's status |
| Validation.ValidateFilm | src/main/java/ru/yandex/practicum/filmorate/service/FilmService.java:100-117 | passes exactly when the name is non-blank, the description is at most 200 characters, the release date is present and not before 1895-12-28, and the duration is positive; otherwise the first failing rule in that order is reported with its own reason (BlankName, DescriptionTooLong, ReleaseTooEarly, NonPositiveDuration) |
| Validation.FilmBoundaries | src/main/java/ru/yandex/practicum/filmorate/service/FilmService.java:105-112 | a 200-character description and the date 1895-12-28 pass; 201 characters, 1895-12-27 and a null date fail with the matching reason |
| Validation.ValidateMpa | src/main/java/ru/yandex/practicum/filmorate/service/FilmService.java:119-123 | passes exactly when a rating with an id is given; otherwise a validation failure |
| Validation.RequestedGenreIds | src/main/java/ru/yandex/practicum/filmorate/service/FilmService.java:128-131 | the non-null genre ids of the request; empty for a null or empty list |
| Validation.GenresByIds | src/main/java/ru/yandex/practicum/filmorate/service/GenreService.java:28-29 | exactly the catalogue genres whose ids are in the set |
| Validation.ValidateGenres | src/main/java/ru/yandex/practicum/filmorate/service/FilmService.java:125-149 | passes exactly when every non-null requested id is catalogued; a failure is NotFound for a requested id missing from the catalogue |
| Validation.ValidateUser | src/main/java/ru/yandex/practicum/filmorate/service/UserService.java:88-101 | passes exactly when the email is non-blank with '@', the login is non-blank without ' ', and the birthday is absent or not after today; otherwise the first failing rule in that order |
| Validation.BirthdayBoundary | src/main/java/ru/yandex/practicum/filmorate/service/UserService.java:97-100 | a birthday of today and a null birthday pass; the next day fails |
| Validation.WithDefaultName | src/main/java/ru/yandex/practicum/filmorate/service/UserService.java:26-28 | a non-blank name is kept, a null or blank one becomes the login; with a valid login the result is non-blank |
| Ranking.InsertByLikes | src/main/java/ru/yandex/practicum/filmorate/storage/FilmDbStorage.java:106 | inserting adds exactly the one element: the result is the old list plus `x` as a multiset |
| Ranking.InsertKeepsByLikes | src/main/java/ru/yandex/practicum/filmorate/storage/FilmDbStorage.java:106 | inserting into a list ordered by likes (non-increasing) keeps it so |
| Ranking.SortByLikes | src/main/java/ru/yandex/practicum/filmorate/storage/FilmDbStorage.java:106 | the result is a permutation of the input ordered by likes, non-increasing |
| Ranking.Take | src/main/java/ru/yandex/practicum/filmorate/storage/FilmDbStorage.java:107 | LIMIT n: the first min(n, length) elements |
| Ranking.PermutationKeepsDistinct | src/main/java/ru/yandex/practicum/filmorate/storage/FilmDbStorage.java:105 | grouping by film_id yields each film once, and reordering keeps that |
| Ranking.TakeKeepsTop | src/main/java/ru/yandex/practicum/filmorate/storage/FilmDbStorage.java:106-107 | no element cut off by LIMIT has more likes than an element kept |
| Ranking.RankedIds | src/main/java/ru/yandex/practicum/filmorate/storage/FilmDbStorage.java:99-106 | every id of the set exactly once, ordered by likes, non-increasing |
| Ranking.TopOfRanked | src/main/java/ru/yandex/practicum/filmorate/storage/FilmDbStorage.java:106-107 | LIMIT over a ranked list keeps distinct ids of the set, in order, with nothing better left out |
| Ranking.Popular | src/main/java/ru/yandex/practicum/filmorate/storage/FilmDbStorage.java:99-109 | min(n, \|ids\|) distinct ids from the set, like counts non-increasing, none left out with more likes than one kept |
| FilmDb.FirstWithId | src/main/java/ru/yandex/practicum/filmorate/storage/FilmDbStorage.java:155 | the first genre in the list with the id; present exactly when the id occurs |
| FilmDb.KeepFirstKeepsEarlier | src/main/java/ru/yandex/practicum/filmorate/storage/FilmDbStorage.java:151-156 | KeepFirst, the toMap accumulation with keep-first merge, has keys = earlier keys ∪ listed ids and keeps earlier entries |
| FilmDb.KeepFirstKeepsFirst | src/main/java/ru/yandex/practicum/filmorate/storage/FilmDbStorage.java:151-156 | KeepFirst, the toMap accumulation with keep-first merge, maps each new id to its first occurrence in the list |
| FilmDb.UniqueGenres | src/main/java/ru/yandex/practicum/filmorate/storage/FilmDbStorage.java:151-156 | one entry per distinct genre id of the list, each the first genre with that id |
| FilmDb.DuplicateGenreKeepsFirst | src/main/java/ru/yandex/practicum/filmorate/storage/FilmDbStorage.java:155 | of two genres with the same id, only the first survives |
| FilmDb.LinksFor | src/main/java/ru/yandex/practicum/filmorate/storage/FilmDbStorage.java:158-161 | exactly the rows (filmId, id) for the distinct requested genre ids |
| FilmDb.NoGenresNoLinks | src/main/java/ru/yandex/practicum/filmorate/storage/FilmDbStorage.java:149 | a null or empty genre list adds no link |
| FilmDb.LinkedIds | src/main/java/ru/yandex/practicum/filmorate/storage/FilmDbStorage.java:135-137 | exactly the genre ids linked to the film |
| FilmDb.ReplaceAllLinks | src/main/java/ru/yandex/practicum/filmorate/storage/FilmDbStorage.java:168-175 | after WithoutFilm (the DELETE of the film's links) and the save, the film is linked to exactly the requested ids, and other films' links are unchanged |
| FilmDb.UniqueValuesAreSaved | src/main/java/ru/yandex/practicum/filmorate/storage/FilmDbStorage.java:159-164 | the de-duplicated values, in any map order, have no repeated id, the same id set as the request, and each is the first occurrence |
| FilmDb.Likers | src/main/java/ru/yandex/practicum/filmorate/storage/FilmDbStorage.java:101-105 | exactly the users with a like row for the film |
| FilmDb.LikeCountFollowsLikes | src/main/java/ru/yandex/practicum/filmorate/storage/FilmDbStorage.java:85-105 | a user counts once per film: the MERGE of a new like raises that film's like count (`LikeCount`, the size of `Likers`) by one and a repeated MERGE changes nothing; the DELETE lowers it by one only when the like was there; no other film's likers change |
| FilmDb.FilmDbStorage.constructor | src/main/java/ru/yandex/practicum/filmorate/storage/FilmDbStorage.java:22-23 | empty film, link and like tables over the given genre and rating catalogues |
| FilmDb.FilmDbStorage.InsertLinks | src/main/java/ru/yandex/practicum/filmorate/storage/FilmDbStorage.java:158-161 | one INSERT per listed genre adds exactly the rows for the listed ids |
| FilmDb.FilmDbStorage.SaveFilmGenres | src/main/java/ru/yandex/practicum/filmorate/storage/FilmDbStorage.java:148-166 | the links added are exactly the distinct requested ids; the film's genre list becomes the de-duplicated list (no repeated id, same id set, first occurrences); a null or empty list is left as given and adds nothing |
| FilmDb.FilmDbStorage.Create | src/main/java/ru/yandex/practicum/filmorate/storage/FilmDbStorage.java:26-46 | the row is inserted under a fresh positive key, the film takes that id, and its genres are saved under it |
| FilmDb.FilmDbStorage.UpdateFilmGenres | src/main/java/ru/yandex/practicum/filmorate/storage/FilmDbStorage.java:168-175 | afterwards the film is linked to exactly the requested ids; no old link of the film remains; other films keep theirs |
| FilmDb.FilmDbStorage.Update | src/main/java/ru/yandex/practicum/filmorate/storage/FilmDbStorage.java:49-64 | the row is rewritten if the id is present (else unchanged), then the links are replaced |
| FilmDb.FilmDbStorage.AddLike | src/main/java/ru/yandex/practicum/filmorate/storage/FilmDbStorage.java:85-89 | the likes set gains (film, user) |
| FilmDb.FilmDbStorage.RemoveLike | src/main/java/ru/yandex/practicum/filmorate/storage/FilmDbStorage.java:92-96 | the likes set loses (film, user); a no-op if absent |
| FilmDb.JoinedGenres | src/main/java/ru/yandex/practicum/filmorate/storage/FilmDbStorage.java:134-146 | what `LoadFilmGenres` returns: exactly the catalogue genres linked to the film, by strictly ascending genre id |
| FilmDb.FilmDbStorage.GetById | src/main/java/ru/yandex/practicum/filmorate/storage/FilmDbStorage.java:111-132 | present exactly when the film row exists and its rating is in the catalogue; then the row with the catalogue rating and `LoadFilmGenres` of the id |
| FilmDb.FilmDbStorage.Catalogued | src/main/java/ru/yandex/practicum/filmorate/storage/FilmDbStorage.java:69-70 | exactly the film ids that survive the join with mpa_ratings |
| FilmDb.FilmDbStorage.LikeCounts | src/main/java/ru/yandex/practicum/filmorate/storage/FilmDbStorage.java:101-105 | a like count (`LikeCount`) for exactly the catalogued films, zero when there is no like |
| FilmDb.FilmDbStorage.PopularIds | src/main/java/ru/yandex/practicum/filmorate/storage/FilmDbStorage.java:99-109 | min(count, number of films) distinct catalogued films, liked or not, like counts non-increasing, none left out with more likes than one listed |
| FilmDb.FilmDbStorage.FilmsOf | src/main/java/ru/yandex/practicum/filmorate/storage/FilmDbStorage.java:108 | each id mapped to the film getById shows for it, so the films' ids are the given ids in order |
| FilmDb.FilmIds | src/main/java/ru/yandex/practicum/filmorate/storage/FilmDbStorage.java:108 | the ids of the films, position by position |
| FilmDb.FilmDbStorage.GetPopularFilms | src/main/java/ru/yandex/practicum/filmorate/storage/FilmDbStorage.java:99-109 | the films of PopularIds in its order (their ids are exactly PopularIds), each as getById shows it |
| FilmDb.FilmDbStorage.GetAll | src/main/java/ru/yandex/practicum/filmorate/storage/FilmDbStorage.java:67-72 | every catalogued film once, as getById shows it, in no fixed order |
| Films.Resolved | src/main/java/ru/yandex/practicum/filmorate/service/FilmService.java:44-45 | the film with its rating replaced by the catalogue record of the same id |
| Films.LikeCheck | src/main/java/ru/yandex/practicum/filmorate/service/FilmService.java:151-161 | passes exactly when getById finds the film and the user exists; the film is checked first |
| Films.FilmService.constructor | src/main/java/ru/yandex/practicum/filmorate/service/FilmService.java:29-36 | the service over the given stores |
| Films.FilmService.Check | src/main/java/ru/yandex/practicum/filmorate/service/FilmService.java:39-44 | the checks run in the order validateFilm, validateMpa, validateGenres and rating lookup; each reports its own failure only when every earlier check passed (`ReportsFirstFailure`); the result passes exactly when all pass |
| Films.FilmService.Create | src/main/java/ru/yandex/practicum/filmorate/service/FilmService.java:38-50 | succeeds exactly when every check passes; a failure is the error of the first failing check, in source order; then the film with the catalogue rating is stored under a fresh id with its genres saved; a failure leaves the store unchanged |
| Films.FilmService.Update | src/main/java/ru/yandex/practicum/filmorate/service/FilmService.java:52-68 | the same checks with the same first-failure error; only a film that passes them all can get NotFound, when getById finds no film; on success the row is rewritten and the genres replaced; a failure leaves the store unchanged |
| Films.FilmService.GetAll | src/main/java/ru/yandex/practicum/filmorate/service/FilmService.java:70-73 | every catalogued film once (distinct ids), as getById shows it |
| Films.FilmService.GetById | src/main/java/ru/yandex/practicum/filmorate/service/FilmService.java:75-79 | the stored film, or NotFound for that id |
| Films.FilmService.AddLike | src/main/java/ru/yandex/practicum/filmorate/service/FilmService.java:81-86 | NotFound for the film, then for the user, with the likes unchanged; otherwise the like is added |
| Films.FilmService.RemoveLike | src/main/java/ru/yandex/practicum/filmorate/service/FilmService.java:88-93 | the same checks, then the like is removed |
| Films.FilmService.GetPopularFilms | src/main/java/ru/yandex/practicum/filmorate/service/FilmService.java:95-98 | the films of the store's PopularIds in order: min(count, catalogued films) films, each once, like counts non-increasing, none left out with more likes than one in the list |
| Films.FilmService.PopularFilmsAsShown | src/main/java/ru/yandex/practicum/filmorate/service/FilmService.java:95-98 | each film getPopularFilms lists is exactly what getById returns for its id |
| Users.UserCheck | src/main/java/ru/yandex/practicum/filmorate/service/UserService.java:103-107 | passes exactly when the id is stored; otherwise NotFound for it |
| Users.PairCheck | src/main/java/ru/yandex/practicum/filmorate/service/UserService.java:62-63 | both users must be stored; the first missing one, in argument order, is reported |
| Users.UpdateCheck | src/main/java/ru/yandex/practicum/filmorate/service/UserService.java:35-40 | validation is reported first, NotFound only for a valid record |
| Users.UserService.constructor | src/main/java/ru/yandex/practicum/filmorate/service/UserService.java:19-22 | the service over the given store |
| Users.UserService.Create | src/main/java/ru/yandex/practicum/filmorate/service/UserService.java:24-32 | fails exactly when validation fails, with that error and no change; otherwise the user with the defaulted name is inserted under a fresh id |
| Users.UserService.Update | src/main/java/ru/yandex/practicum/filmorate/service/UserService.java:34-48 | fails with the UpdateCheck error and no change; otherwise the row at the id is replaced by the user with the defaulted name |
| Users.UserService.GetAll | src/main/java/ru/yandex/practicum/filmorate/service/UserService.java:50-53 | exactly the stored users |
| Users.UserService.GetById | src/main/java/ru/yandex/practicum/filmorate/service/UserService.java:55-59 | the stored user, or NotFound for that id |
| Users.UserService.AddFriend | src/main/java/ru/yandex/practicum/filmorate/service/UserService.java:61-66 | NotFound for the first missing user with no change; otherwise row (userId, friendId) is upserted with the status |
| Users.UserService.RemoveFriend | src/main/java/ru/yandex/practicum/filmorate/service/UserService.java:68-73 | NotFound for the first missing user with no change; otherwise row (userId, friendId) is deleted |
| Users.UserService.GetFriends | src/main/java/ru/yandex/practicum/filmorate/service/UserService.java:75-79 | NotFound exactly for an unknown user; otherwise the store's friends |
| Users.UserService.GetCommonFriends | src/main/java/ru/yandex/practicum/filmorate/service/UserService.java:81-86 | NotFound for the first missing user; otherwise the store's common friends |
| Controller.UpdateUserCheck | src/main/java/ru/yandex/practicum/filmorate/controller/UserController.java:39-40 | existence is reported first, validation only for a stored id |
| Controller.UpdateChecksDifferOnlyInOrder | src/main/java/ru/yandex/practicum/filmorate/controller/UserController.java:39-40 | controller and service accept the same updates; for an invalid record with an unknown id the controller reports NotFound and the service the validation error |
| Controller.UserController.constructor | src/main/java/ru/yandex/practicum/filmorate/controller/UserController.java:20-21 | empty map, counter at 1 |
| Controller.UserController.CreateUser | src/main/java/ru/yandex/practicum/filmorate/controller/UserController.java:25-35 | a failed validation changes nothing; otherwise the user takes the old counter as id, the counter grows by one, the name is defaulted, and the map gains exactly that new entry |
| Controller.UserController.UpdateUser | src/main/java/ru/yandex/practicum/filmorate/controller/UserController.java:38-48 | NotFound for an unknown id before validation; a failure changes nothing; otherwise the existing entry is overwritten, keys and size unchanged, other entries untouched |
| Controller.UserController.GetAllUsers | src/main/java/ru/yandex/practicum/filmorate/controller/UserController.java:50-54 | exactly the stored values |
| Controller.UserController.CheckUserExists | src/main/java/ru/yandex/practicum/filmorate/controller/UserController.java:71-80 | passes exactly when the id is a key; otherwise NotFound |
| Backends.AddAgrees | src/main/java/ru/yandex/practicum/filmorate/storage/InMemoryUserStorage.java:41-43 | the in-memory put and the MERGE produce the same edges from the same edges |
| Backends.RemoveDiverges | src/main/java/ru/yandex/practicum/filmorate/storage/UserDbStorage.java:94-99 | after a mutual request, removal clears the reverse edge in memory but keeps the reverse row in the table |
| Backends.ConfirmDiverges | src/main/java/ru/yandex/practicum/filmorate/storage/InMemoryUserStorage.java:51 | confirming a request never made creates a CONFIRMED edge in memory and no row in the table |
| Backends.ConfirmAgreesOnRequest | src/main/java/ru/yandex/practicum/filmorate/storage/UserDbStorage.java:87-92 | when the request exists both backends confirm it identically, and agree on all edges outside the pair |

## Left out

- JDBC and SQL machinery (JdbcTemplate, SimpleJdbcInsert, ResultSet mapping) is not modelled: each statement is the table change it denotes, and generated keys come from an identity counter.
- Logging has no effect on state and is left out.
- HTTP routing, status codes and ErrorHandler: the failures are the `Error` values ValidationError and NotFound.
- The MPA and genre lookups are not modelled as SQL. The rating and genre catalogues are the read-only maps the film store is built over. `getGenresByIds`, called at GenreService.java:29, does not exist in GenreDbStorage.java, so it is modelled as the catalogue entries with the given ids.
- Mpa.java, Genre.java and FriendshipStatus.java are not part of this model; their shapes are inferred from their use.
- Java object identity and aliasing are not modelled: records are values, so the source's `setId`, `setName`, `setMpa` and `setGenres` on the caller's object are results returned by the model.
- Null `Integer` ids and durations are not modelled. In the source they raise NullPointerException on unboxing, except that the controller reports NotFound for a null id.
- The `setFriends` call in UserDbStorage.getById and getAll targets a field that User.java does not declare; the returned user is the stored row, and the friend map is available through LoadUserFriends.
- Dates are (year, month, day) triples compared lexicographically; calendar validity is not checked, and `today` is a parameter in place of `LocalDate.now()`.
- Strings are sequences of `char`: `String.length()` counts UTF-16 units, which is what `seq<char>` length counts for characters outside surrogate pairs only.
- Schema constraints of film_genres and likes (foreign keys, NOT NULL) are not modelled: a null genre id is linked as given, and loadFilmGenres' inner join drops it.
- FilmDb.FilmDbStorage.PopularIds: ties in like count are in no promised order, because the query orders by like count only; a negative `count` is not modelled (`nat`).
- Films.FilmService.Check: which missing genre id is reported follows HashSet iteration order, so the contract promises only some requested, missing id.
- Films.FilmService.Create: the same holds for its genre NotFound, through `ReportsFirstFailure`.
- Films.FilmService.Update: the same holds for its genre NotFound, through `ReportsFirstFailure`.
- The in-memory `nextId` counters (InMemoryUserStorage.java:18, UserController.java:27) are Java `int`s that wrap after 2^31 - 1 creations, and the database identity columns have a width too; the model's counters are unbounded integers, so the fresh-id promises of Create and CreateUser hold only below that bound.
- Concurrency and transactions: every operation is one sequential call.
