/**
  The film service: validation, rating and genre resolution in a fixed order, then
  the store. The rating and genre catalogues are the reference tables of the film
  store; users are looked up in the user store.
 */
module Films {
  import opened Model
  import opened Validation
  import opened FilmDb
  import opened UserDb
  import opened Collections

  /** The film as it reaches the store: its rating replaced by the catalogue record. */
  function Resolved(film: Film, mpaRatings: map<int, Mpa>): (r: Film)
    requires film.mpa.Some? && film.mpa.value.id.Some? && film.mpa.value.id.value in mpaRatings
    requires MpaKeyed(mpaRatings)
    ensures r.mpa.Some? && r.mpa.value.id.Some? && RowOf(r).mpaId == film.mpa.value.id.value
    ensures r == film.(mpa := Some(mpaRatings[film.mpa.value.id.value]))
  {
    var k := film.mpa.value.id.value;
    assert mpaRatings[k].id == Some(k);
    film.(mpa := Some(mpaRatings[k]))
  }

  /** Every check before the store passes: the fields, a rating with an id, only
      catalogued genre ids, and a catalogued rating. */
  predicate Acceptable(film: Film, genres: map<int, Genre>, mpaRatings: map<int, Mpa>) {
    && ValidateFilm(film).Pass?
    && ValidateMpa(film.mpa).Pass?
    && (forall id :: id in RequestedGenreIds(film.genres) ==> id in genres)
    && film.mpa.value.id.value in mpaRatings
  }

  /** `r` is what the first failing check reports: validateFilm, then validateMpa, then
      validateGenres (NotFound for some requested genre id missing from the catalogue), then
      the rating lookup (NotFound for the rating id). */
  predicate ReportsFirstFailure(film: Film, genres: map<int, Genre>, mpaRatings: map<int, Mpa>, r: Outcome) {
    && (ValidateFilm(film).Fail? ==> r == ValidateFilm(film))
    && (ValidateFilm(film).Pass? && ValidateMpa(film.mpa).Fail? ==> r == ValidateMpa(film.mpa))
    && (ValidateFilm(film).Pass? && ValidateMpa(film.mpa).Pass?
        && (exists id :: id in RequestedGenreIds(film.genres) && id !in genres)
        ==> r.Fail? && r.error.NotFound? && r.error.entity == GenreEntity
            && r.error.id in RequestedGenreIds(film.genres) && r.error.id !in genres)
    && (ValidateFilm(film).Pass? && ValidateMpa(film.mpa).Pass?
        && (forall id :: id in RequestedGenreIds(film.genres) ==> id in genres)
        && film.mpa.value.id.value !in mpaRatings
        ==> r == Fail(NotFound(MpaEntity, film.mpa.value.id.value)))
  }

  /** The film is not stored or its rating row is missing (getById is empty), or the user is not stored. */
  function LikeCheck(films: FilmDbStorage, users: UserDbStorage, filmId: int, userId: int): (r: Outcome)
    reads films, users
    ensures r.Pass? <==> filmId in films.Catalogued() && userId in users.users
    ensures filmId !in films.Catalogued() ==> r == Fail(NotFound(FilmEntity, filmId))
    ensures filmId in films.Catalogued() && userId !in users.users ==> r == Fail(NotFound(UserEntity, userId))
  {
    if filmId !in films.Catalogued() then Fail(NotFound(FilmEntity, filmId))
    else if userId !in users.users then Fail(NotFound(UserEntity, userId))
    else Pass
  }

  class FilmService {
    const filmStorage: FilmDbStorage
    const userStorage: UserDbStorage

    ghost predicate Valid()
      reads this, filmStorage, userStorage
    {
      filmStorage.Valid() && userStorage.Valid()
    }

    constructor (filmStorage: FilmDbStorage, userStorage: UserDbStorage)
      requires filmStorage.Valid() && userStorage.Valid()
      ensures Valid() && this.filmStorage == filmStorage && this.userStorage == userStorage
    {
      this.filmStorage, this.userStorage := filmStorage, userStorage;
    }

    /** Runs validateFilm, validateMpa, validateGenres and the rating lookup, stopping at the
        first failure; a failure changes nothing. */
    method Check(film: Film) returns (r: Outcome)
      requires Valid()
      ensures r.Pass? <==> Acceptable(film, filmStorage.genres, filmStorage.mpaRatings)
      ensures ReportsFirstFailure(film, filmStorage.genres, filmStorage.mpaRatings, r)
    {
      r := ValidateFilm(film);
      if r.Fail? {
        return;
      }
      r := ValidateMpa(film.mpa);
      if r.Fail? {
        return;
      }
      r := ValidateGenres(film.genres, filmStorage.genres);
      if r.Fail? {
        return;
      }
      var mpaId := film.mpa.value.id.value;
      if mpaId !in filmStorage.mpaRatings {
        return Fail(NotFound(MpaEntity, mpaId));
      }
    }

    /** create: the checks, then the store under a fresh id with the catalogue rating. */
    method Create(film: Film) returns (r: Result<Film>)
      requires Valid()
      modifies filmStorage`films, filmStorage`filmGenres, filmStorage`nextKey
      ensures Valid()
      ensures r.Ok? <==> Acceptable(film, filmStorage.genres, filmStorage.mpaRatings)
      ensures r.Err? ==> ReportsFirstFailure(film, filmStorage.genres, filmStorage.mpaRatings, Fail(r.error))
      ensures r.Err? ==> unchanged(filmStorage)
      ensures r.Ok? ==>
                var stored := Resolved(film, filmStorage.mpaRatings);
                && r.value == stored.(id := r.value.id, genres := r.value.genres)
                && r.value.id !in old(filmStorage.films)
                && filmStorage.films == old(filmStorage.films)[r.value.id := RowOf(stored)]
                && filmStorage.filmGenres == old(filmStorage.filmGenres) + LinksFor(r.value.id, film.genres)
                && SavedGenres(film.genres, r.value.genres)
    {
      var check := Check(film);
      if check.Fail? {
        return Err(check.error);
      }
      var stored := Resolved(film, filmStorage.mpaRatings);
      var created := filmStorage.Create(stored);
      return Ok(created);
    }

    /** update: the same checks, then NotFound for a film getById does not show, then the store. */
    method Update(film: Film) returns (r: Result<Film>)
      requires Valid()
      modifies filmStorage`films, filmStorage`filmGenres
      ensures Valid()
      ensures r.Ok? <==> Acceptable(film, filmStorage.genres, filmStorage.mpaRatings) && film.id in old(filmStorage.Catalogued())
      ensures !Acceptable(film, filmStorage.genres, filmStorage.mpaRatings)
              ==> r.Err? && ReportsFirstFailure(film, filmStorage.genres, filmStorage.mpaRatings, Fail(r.error))
      ensures Acceptable(film, filmStorage.genres, filmStorage.mpaRatings) && film.id !in old(filmStorage.Catalogued())
              ==> r == Err(NotFound(FilmEntity, film.id))
      ensures r.Err? ==> unchanged(filmStorage)
      ensures r.Ok? ==>
                var stored := Resolved(film, filmStorage.mpaRatings);
                && r.value == stored.(genres := r.value.genres)
                && filmStorage.films == old(filmStorage.films)[film.id := RowOf(stored)]
                && LinkedIds(filmStorage.filmGenres, film.id) == GenreIdSet(film.genres)
                && filmStorage.filmGenres == WithoutFilm(old(filmStorage.filmGenres), film.id) + LinksFor(film.id, film.genres)
                && SavedGenres(film.genres, r.value.genres)
    {
      var check := Check(film);
      if check.Fail? {
        return Err(check.error);
      }
      var stored := Resolved(film, filmStorage.mpaRatings);
      if filmStorage.GetById(film.id).None? {
        return Err(NotFound(FilmEntity, film.id));
      }
      var updated := filmStorage.Update(stored);
      return Ok(updated);
    }

    method GetAll() returns (r: seq<Film>)
      requires Valid()
      ensures |r| == |filmStorage.Catalogued()|
      ensures forall i :: 0 <= i < |r| ==> filmStorage.GetById(r[i].id) == Some(r[i])
      ensures forall i, j :: 0 <= i < j < |r| ==> r[i].id != r[j].id
    {
      r := filmStorage.GetAll();
    }

    /** getById: the stored film, or NotFound. */
    function GetById(id: int): (r: Result<Film>)
      requires Valid()
      reads this, filmStorage, userStorage
      ensures r.Ok? <==> id in filmStorage.Catalogued()
      ensures r.Ok? ==> filmStorage.GetById(id) == Some(r.value) && r.value.id == id
      ensures r.Err? ==> r.error == NotFound(FilmEntity, id)
    {
      match filmStorage.GetById(id)
      case Some(film) => Ok(film)
      case None => Err(NotFound(FilmEntity, id))
    }

    /** addLike: film first, then user, then the like; a failed check leaves the likes as they were. */
    method AddLike(filmId: int, userId: int) returns (r: Outcome)
      requires Valid()
      modifies filmStorage`likes
      ensures Valid()
      ensures r == old(LikeCheck(filmStorage, userStorage, filmId, userId))
      ensures filmStorage.likes == if r.Pass? then old(filmStorage.likes) + {(filmId, userId)} else old(filmStorage.likes)
    {
      r := LikeCheck(filmStorage, userStorage, filmId, userId);
      if r.Pass? {
        filmStorage.AddLike(filmId, userId);
      }
    }

    /** removeLike: the same checks, then the like is deleted. */
    method RemoveLike(filmId: int, userId: int) returns (r: Outcome)
      requires Valid()
      modifies filmStorage`likes
      ensures Valid()
      ensures r == old(LikeCheck(filmStorage, userStorage, filmId, userId))
      ensures filmStorage.likes == if r.Pass? then old(filmStorage.likes) - {(filmId, userId)} else old(filmStorage.likes)
    {
      r := LikeCheck(filmStorage, userStorage, filmId, userId);
      if r.Pass? {
        filmStorage.RemoveLike(filmId, userId);
      }
    }

    /** getPopularFilms: the films of the store's ranking `PopularIds` in order: the `count`
        most liked catalogued films (all of them when there are fewer), each once, by
        non-increasing like count, with no film left out that has more likes than one in the
        list. */
    function GetPopularFilms(count: nat): (r: seq<Film>)
      requires Valid()
      reads this, filmStorage, userStorage
      ensures FilmIds(r) == filmStorage.PopularIds(count)
      ensures |r| == if count < |filmStorage.Catalogued()| then count else |filmStorage.Catalogued()|
      ensures Distinct(FilmIds(r))
      ensures forall i, j :: 0 <= i < j < |r| ==>
                filmStorage.LikeCount(FilmIds(r)[i]) >= filmStorage.LikeCount(FilmIds(r)[j])
      ensures forall id, i :: id in filmStorage.Catalogued() && id !in FilmIds(r) && 0 <= i < |r|
                ==> filmStorage.LikeCount(FilmIds(r)[i]) >= filmStorage.LikeCount(id)
    {
      filmStorage.GetPopularFilms(count)
    }

    /** Each film getPopularFilms lists is the film getById shows for its id. */
    lemma PopularFilmsAsShown(count: nat)
      requires Valid()
      ensures forall i :: 0 <= i < |GetPopularFilms(count)| ==>
                GetById(GetPopularFilms(count)[i].id) == Ok(GetPopularFilms(count)[i])
    {
    }
  }
}
