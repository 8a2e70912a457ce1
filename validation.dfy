/**
  The field rules the services check before anything reaches a store, in the
  order in which they raise ValidationException or NotFoundException.
 */
module Validation {
  import opened Model

  /** The earliest accepted release date (the first public film screening). */
  const MinReleaseDate := Date(1895, 12, 28)

  /** The longest accepted description, in characters. */
  const MaxDescriptionLength := 200

  predicate NameValid(name: Option<string>) {
    !NullOrBlank(name)
  }

  predicate DescriptionValid(description: Option<string>) {
    description.None? || |description.value| <= MaxDescriptionLength
  }

  predicate ReleaseDateValid(releaseDate: Option<Date>) {
    releaseDate.Some? && !Before(releaseDate.value, MinReleaseDate)
  }

  predicate DurationValid(duration: int) {
    duration > 0
  }

  /** validateFilm: the first violated rule, in the order name, description, release date, duration. */
  function ValidateFilm(film: Film): (r: Outcome)
    ensures r.Pass? <==> NameValid(film.name) && DescriptionValid(film.description)
                         && ReleaseDateValid(film.releaseDate) && DurationValid(film.duration)
    ensures r.Fail? ==> r.error.ValidationError?
    ensures !NameValid(film.name) ==> r == Fail(ValidationError(BlankName))
    ensures NameValid(film.name) && !DescriptionValid(film.description) ==> r == Fail(ValidationError(DescriptionTooLong))
    ensures NameValid(film.name) && DescriptionValid(film.description) && !ReleaseDateValid(film.releaseDate)
            ==> r == Fail(ValidationError(ReleaseTooEarly))
    ensures NameValid(film.name) && DescriptionValid(film.description) && ReleaseDateValid(film.releaseDate)
              && !DurationValid(film.duration)
            ==> r == Fail(ValidationError(NonPositiveDuration))
  {
    if NullOrBlank(film.name) then Fail(ValidationError(BlankName))
    else if film.description.Some? && |film.description.value| > MaxDescriptionLength then Fail(ValidationError(DescriptionTooLong))
    else if film.releaseDate.None? || Before(film.releaseDate.value, MinReleaseDate) then Fail(ValidationError(ReleaseTooEarly))
    else if film.duration <= 0 then Fail(ValidationError(NonPositiveDuration))
    else Pass
  }

  /** The description limit is inclusive and the release floor is itself accepted. */
  lemma FilmBoundaries(film: Film)
    requires NameValid(film.name) && DurationValid(film.duration)
    requires film.description.Some? && |film.description.value| == MaxDescriptionLength
    requires film.releaseDate == Some(MinReleaseDate)
    ensures ValidateFilm(film) == Pass
    ensures ValidateFilm(film.(description := Some(film.description.value + "x"))) == Fail(ValidationError(DescriptionTooLong))
    ensures ValidateFilm(film.(releaseDate := Some(Date(1895, 12, 27)))) == Fail(ValidationError(ReleaseTooEarly))
    ensures ValidateFilm(film.(releaseDate := None)) == Fail(ValidationError(ReleaseTooEarly))
  {
  }

  /** validateMpa: a rating and its id are both required. */
  function ValidateMpa(mpa: Option<Mpa>): (r: Outcome)
    ensures r.Pass? <==> mpa.Some? && mpa.value.id.Some?
    ensures r.Fail? ==> r == Fail(ValidationError(MpaMissing))
  {
    if mpa.None? || mpa.value.id.None? then Fail(ValidationError(MpaMissing)) else Pass
  }

  /** A genre table keyed by genre_id. */
  predicate GenresKeyed(catalogue: map<int, Genre>) {
    forall k :: k in catalogue ==> catalogue[k].id == Some(k)
  }

  /** The non-null genre ids of a request. */
  function RequestedGenreIds(genres: Option<seq<Genre>>): (r: set<int>)
    ensures genres.None? || genres.value == [] ==> r == {}
    ensures forall id :: id in r <==> genres.Some? && exists g :: g in genres.value && g.id == Some(id)
  {
    if genres.Some? then set g | g in genres.value && g.id.Some? :: g.id.value else {}
  }

  /** `getGenresByIds`: the catalogue entries whose ids are in the set. */
  function GenresByIds(ids: set<int>, catalogue: map<int, Genre>): (r: set<Genre>)
    requires GenresKeyed(catalogue)
    ensures forall g: Genre :: g in r <==> g.id.Some? && g.id.value in ids && g.id.value in catalogue && catalogue[g.id.value] == g
  {
    var r := set k | k in ids && k in catalogue :: catalogue[k];
    assert forall g: Genre :: g.id.Some? && g.id.value in ids && g.id.value in catalogue && catalogue[g.id.value] == g ==> g in r by {
      forall g: Genre | g.id.Some? && g.id.value in ids && g.id.value in catalogue && catalogue[g.id.value] == g
        ensures g in r
      {
        var k := g.id.value;
        assert catalogue[k] in r;
      }
    }
    r
  }

  /** validateGenres: every non-null requested genre id must be in the catalogue; the
      missing id reported is the first one met in the id set's iteration order. */
  method ValidateGenres(genres: Option<seq<Genre>>, catalogue: map<int, Genre>) returns (r: Outcome)
    requires GenresKeyed(catalogue)
    ensures r.Pass? <==> forall id :: id in RequestedGenreIds(genres) ==> id in catalogue
    ensures r.Fail? ==> r.error.NotFound? && r.error.entity == GenreEntity
                        && r.error.id in RequestedGenreIds(genres) && r.error.id !in catalogue
  {
    if genres.Some? && |genres.value| > 0 {
      var genreIds := set g | g in genres.value && g.id.Some? :: g.id.value;
      if genreIds != {} {
        var existing := GenresByIds(genreIds, catalogue);
        var existingIds := set g | g in existing :: g.id;
        var rest := genreIds;
        while rest != {}
          invariant rest <= genreIds
          invariant forall id :: id in genreIds - rest ==> id in catalogue
          decreases |rest|
        {
          if forall id :: id !in rest {
            assert false;
          }
          var id :| id in rest;
          if Some(id) !in existingIds {
            return Fail(NotFound(GenreEntity, id));
          }
          assert catalogue[id] in existing;
          rest := rest - {id};
        }
      }
    }
    return Pass;
  }

  predicate EmailValid(email: Option<string>) {
    !NullOrBlank(email) && '@' in email.value
  }

  predicate LoginValid(login: Option<string>) {
    !NullOrBlank(login) && ' ' !in login.value
  }

  predicate BirthdayValid(birthday: Option<Date>, today: Date) {
    birthday.None? || !Before(today, birthday.value)
  }

  /** validateUser: the first violated rule, in the order email, login, birthday;
      `today` stands for LocalDate.now(). */
  function ValidateUser(user: User, today: Date): (r: Outcome)
    ensures r.Pass? <==> EmailValid(user.email) && LoginValid(user.login) && BirthdayValid(user.birthday, today)
    ensures r.Fail? ==> r.error.ValidationError?
    ensures !EmailValid(user.email) ==> r == Fail(ValidationError(BadEmail))
    ensures EmailValid(user.email) && !LoginValid(user.login) ==> r == Fail(ValidationError(BadLogin))
    ensures EmailValid(user.email) && LoginValid(user.login) && !BirthdayValid(user.birthday, today)
            ==> r == Fail(ValidationError(BirthdayInFuture))
  {
    if NullOrBlank(user.email) || '@' !in user.email.value then Fail(ValidationError(BadEmail))
    else if NullOrBlank(user.login) || ' ' in user.login.value then Fail(ValidationError(BadLogin))
    else if user.birthday.Some? && Before(today, user.birthday.value) then Fail(ValidationError(BirthdayInFuture))
    else Pass
  }

  /** A birthday of today passes; the day after does not. */
  lemma BirthdayBoundary(user: User, today: Date)
    requires EmailValid(user.email) && LoginValid(user.login)
    ensures ValidateUser(user.(birthday := Some(today)), today) == Pass
    ensures ValidateUser(user.(birthday := None), today) == Pass
    ensures ValidateUser(user.(birthday := Some(today.(day := today.day + 1))), today) == Fail(ValidationError(BirthdayInFuture))
  {
  }

  /** The name rule of create and update: a null or blank display name becomes the login. */
  function WithDefaultName(user: User): (r: User)
    ensures !NullOrBlank(user.name) ==> r == user
    ensures NullOrBlank(user.name) ==> r == user.(name := user.login)
    ensures LoginValid(user.login) ==> !NullOrBlank(r.name)
  {
    if NullOrBlank(user.name) then user.(name := user.login) else user
  }
}
