/**
  The records of the film catalogue (Film, User, Mpa, Genre), the friendship
  status, calendar dates, Java string predicates, and the two failure kinds the
  services raise (ValidationException and NotFoundException).
 */
module Model {

  datatype Option<+T> = None | Some(value: T)

  /** A calendar date (java.time.LocalDate) as a (year, month, day) triple. */
  datatype Date = Date(year: int, month: int, day: int)

  /** LocalDate.isBefore: lexicographic order on (year, month, day). */
  predicate Before(a: Date, b: Date) {
    a.year < b.year
    || (a.year == b.year && a.month < b.month)
    || (a.year == b.year && a.month == b.month && a.day < b.day)
  }

  lemma BeforeIsStrictOrder(a: Date, b: Date, c: Date)
    ensures !Before(a, a)
    ensures Before(a, b) ==> !Before(b, a)
    ensures Before(a, b) && Before(b, c) ==> Before(a, c)
    ensures a != b ==> Before(a, b) || Before(b, a)
  {
  }

  datatype FriendshipStatus = Pending | Confirmed

  /** A user; every field but the id may be absent (null in the source). */
  datatype User = User(id: int, email: Option<string>, login: Option<string>,
                       name: Option<string>, birthday: Option<Date>)

  /** An MPA rating; a request may carry a rating without an id. */
  datatype Mpa = Mpa(id: Option<int>, name: string, description: string)

  /** A genre reference; the id may be absent in a request. */
  datatype Genre = Genre(id: Option<int>, name: string)

  datatype Film = Film(id: int, name: Option<string>, description: Option<string>,
                       releaseDate: Option<Date>, duration: int,
                       mpa: Option<Mpa>, genres: Option<seq<Genre>>)

  /** Which ValidationException a request raised (one per message of the source). */
  datatype Reason =
    | BlankName | DescriptionTooLong | ReleaseTooEarly | NonPositiveDuration | MpaMissing
    | BadEmail | BadLogin | BirthdayInFuture

  datatype Entity = UserEntity | FilmEntity | GenreEntity | MpaEntity

  datatype Error = ValidationError(reason: Reason) | NotFound(entity: Entity, id: int)

  /** The result of a check that either passes or throws. */
  datatype Outcome = Pass | Fail(error: Error)

  /** The result of an operation that either returns a value or throws. */
  datatype Result<+T> = Ok(value: T) | Err(error: Error)

  /** Character.isWhitespace: Unicode space, line and paragraph separators other
      than the non-breaking ones, and the ASCII controls TAB, LF, VT, FF, CR, FS, GS, RS, US. */
  predicate IsWhitespace(c: char) {
    var n := c as int;
    (9 <= n <= 13) || (28 <= n <= 32)
    || n == 0x1680 || (0x2000 <= n <= 0x2006) || (0x2008 <= n <= 0x200A)
    || n == 0x2028 || n == 0x2029 || n == 0x205F || n == 0x3000
  }

  /** String.isBlank: empty or whitespace only. */
  predicate IsBlank(s: string) {
    forall i :: 0 <= i < |s| ==> IsWhitespace(s[i])
  }

  /** `s == null || s.isBlank()`, which is also StringUtils.isBlank(s). */
  predicate NullOrBlank(s: Option<string>) {
    s.None? || IsBlank(s.value)
  }
}
