/**
  The relational film backend over abstract tables: `films` keyed by a generated
  film_id, the link tables `film_genres(film_id, genre_id)` and `likes(film_id, user_id)`,
  and the read-only reference tables `genres` and `mpa_ratings`.
 */
module FilmDb {
  import opened Model
  import opened Collections
  import opened Ranking
  import Validation

  /** A row of the films table. */
  datatype FilmRow = FilmRow(name: Option<string>, description: Option<string>,
                             releaseDate: Option<Date>, duration: int, mpaId: int)

  /** The columns an insert or update writes from a film with a rating id. */
  function RowOf(film: Film): FilmRow
    requires film.mpa.Some? && film.mpa.value.id.Some?
  {
    FilmRow(film.name, film.description, film.releaseDate, film.duration, film.mpa.value.id.value)
  }

  /** The genre ids (null included) occurring in a list. */
  function IdsOf(gs: seq<Genre>): set<Option<int>> {
    set g | g in gs :: g.id
  }

  predicate DistinctIds(gs: seq<Genre>) {
    forall i, j :: 0 <= i < j < |gs| ==> gs[i].id != gs[j].id
  }

  /** The first genre of the list with the given id. */
  function FirstWithId(gs: seq<Genre>, id: Option<int>): (r: Option<Genre>)
    ensures r.Some? <==> id in IdsOf(gs)
    ensures r.Some? ==> r.value in gs && r.value.id == id
  {
    if gs == [] then None
    else
      assert IdsOf(gs) == {gs[0].id} + IdsOf(gs[1..]) by {
        assert gs == [gs[0]] + gs[1..];
      }
      if gs[0].id == id then Some(gs[0]) else FirstWithId(gs[1..], id)
  }

  /** The accumulation of `Collectors.toMap(Genre::getId, g -> g, (existing, replacement) -> existing)`. */
  function KeepFirst(gs: seq<Genre>, acc: map<Option<int>, Genre>): map<Option<int>, Genre> {
    if gs == [] then acc
    else KeepFirst(gs[1..], if gs[0].id in acc then acc else acc[gs[0].id := gs[0]])
  }

  lemma {:induction false} KeepFirstKeepsEarlier(gs: seq<Genre>, acc: map<Option<int>, Genre>)
    ensures KeepFirst(gs, acc).Keys == acc.Keys + IdsOf(gs)
    ensures forall id :: id in acc ==> KeepFirst(gs, acc)[id] == acc[id]
  {
    if gs != [] {
      var acc' := if gs[0].id in acc then acc else acc[gs[0].id := gs[0]];
      KeepFirstKeepsEarlier(gs[1..], acc');
      assert gs == [gs[0]] + gs[1..];
      assert IdsOf(gs) == {gs[0].id} + IdsOf(gs[1..]);
    }
  }

  lemma {:induction false} KeepFirstKeepsFirst(gs: seq<Genre>, acc: map<Option<int>, Genre>)
    ensures forall id :: id in IdsOf(gs) && id !in acc ==> id in KeepFirst(gs, acc) && Some(KeepFirst(gs, acc)[id]) == FirstWithId(gs, id)
  {
    KeepFirstKeepsEarlier(gs, acc);
    if gs != [] {
      var acc' := if gs[0].id in acc then acc else acc[gs[0].id := gs[0]];
      var m := KeepFirst(gs[1..], acc');
      assert KeepFirst(gs, acc) == m;
      KeepFirstKeepsEarlier(gs[1..], acc');
      KeepFirstKeepsFirst(gs[1..], acc');
      assert gs == [gs[0]] + gs[1..];
      assert IdsOf(gs) == {gs[0].id} + IdsOf(gs[1..]);
      forall id | id in IdsOf(gs) && id !in acc
        ensures id in m && Some(m[id]) == FirstWithId(gs, id)
      {
        if id == gs[0].id {
          assert m[id] == acc'[id] == gs[0];
        } else {
          assert id in IdsOf(gs[1..]) && id !in acc';
        }
      }
    }
  }

  /** The genres of a request with one entry per id, the first occurrence winning. */
  function UniqueGenres(gs: seq<Genre>): (m: map<Option<int>, Genre>)
    ensures m.Keys == IdsOf(gs)
    ensures forall id :: id in m ==> Some(m[id]) == FirstWithId(gs, id) && m[id].id == id
  {
    KeepFirstKeepsEarlier(gs, map[]);
    KeepFirstKeepsFirst(gs, map[]);
    KeepFirst(gs, map[])
  }

  /** What saveFilmGenres leaves in `film.genres`: the request itself when it is null or
      empty, otherwise one genre per requested id, each the first with that id. */
  predicate SavedGenres(requested: Option<seq<Genre>>, saved: Option<seq<Genre>>) {
    if requested.None? || requested.value == [] then saved == requested
    else
      && saved.Some?
      && DistinctIds(saved.value)
      && IdsOf(saved.value) == IdsOf(requested.value)
      && forall k :: 0 <= k < |saved.value| ==> FirstWithId(requested.value, saved.value[k].id) == Some(saved.value[k])
  }

  /** The genre ids of a request as a set, empty when the list is null. */
  function GenreIdSet(genres: Option<seq<Genre>>): set<Option<int>> {
    if genres.Some? then IdsOf(genres.value) else {}
  }

  /** Of two genres with one id, the first is kept. */
  lemma DuplicateGenreKeepsFirst(first: Genre, second: Genre)
    requires first.id == second.id
    ensures UniqueGenres([first, second]) == map[first.id := first]
  {
    var m := UniqueGenres([first, second]);
    assert IdsOf([first, second]) == {first.id};
    assert Some(m[first.id]) == FirstWithId([first, second], first.id);
  }

  /** The film_genres rows inserted for a film. */
  function LinksFor(filmId: int, genres: Option<seq<Genre>>): (r: set<(int, Option<int>)>)
    ensures forall p :: p in r <==> p.0 == filmId && p.1 in GenreIdSet(genres)
  {
    var r := set id | id in GenreIdSet(genres) :: (filmId, id);
    assert forall p: (int, Option<int>) :: p.0 == filmId && p.1 in GenreIdSet(genres) ==> p in r by {
      forall p: (int, Option<int>) | p.0 == filmId && p.1 in GenreIdSet(genres)
        ensures p in r
      {
        assert p == (filmId, p.1);
      }
    }
    r
  }

  /** A null or empty genre list inserts no link. */
  lemma NoGenresNoLinks(filmId: int)
    ensures LinksFor(filmId, None) == {} && LinksFor(filmId, Some([])) == {}
  {
    assert IdsOf([]) == {};
  }

  /** `DELETE FROM film_genres WHERE film_id = ?` */
  function WithoutFilm(links: set<(int, Option<int>)>, filmId: int): set<(int, Option<int>)> {
    set p | p in links && p.0 != filmId
  }

  /** The genre ids linked to a film. */
  function LinkedIds(links: set<(int, Option<int>)>, filmId: int): (r: set<Option<int>>)
    ensures forall id :: id in r <==> (filmId, id) in links
  {
    var r := set p | p in links && p.0 == filmId :: p.1;
    assert forall id :: (filmId, id) in links ==> id in r by {
      forall id | (filmId, id) in links
        ensures id in r
      {
        var p := (filmId, id);
        assert p in links && p.0 == filmId;
      }
    }
    r
  }

  /** Genre update is replace-all: afterwards the film is linked to exactly the requested
      ids, and every other film keeps its links. */
  lemma ReplaceAllLinks(links: set<(int, Option<int>)>, filmId: int, genres: Option<seq<Genre>>)
    ensures LinkedIds(WithoutFilm(links, filmId) + LinksFor(filmId, genres), filmId) == GenreIdSet(genres)
    ensures forall other :: other != filmId ==>
              LinkedIds(WithoutFilm(links, filmId) + LinksFor(filmId, genres), other) == LinkedIds(links, other)
  {
    var after := WithoutFilm(links, filmId) + LinksFor(filmId, genres);
    forall other | other != filmId
      ensures LinkedIds(after, other) == LinkedIds(links, other)
    {
      forall id
        ensures id in LinkedIds(after, other) <==> id in LinkedIds(links, other)
      {
        assert (other, id) in after <==> (other, id) in links;
      }
    }
    forall id
      ensures id in LinkedIds(after, filmId) <==> id in GenreIdSet(genres)
    {
      assert (filmId, id) in after <==> (filmId, id) in LinksFor(filmId, genres);
    }
  }

  /** The values of UniqueGenres, in whatever order the map lists them, are what
      saveFilmGenres promises, and link the same ids. */
  lemma UniqueValuesAreSaved(gs: seq<Genre>, values: seq<Genre>, keys: seq<Option<int>>)
    requires gs != []
    requires |keys| == |values| == |UniqueGenres(gs)| && Distinct(keys)
    requires forall k :: k in keys <==> k in UniqueGenres(gs)
    requires forall i :: 0 <= i < |keys| ==> values[i] == UniqueGenres(gs)[keys[i]]
    ensures SavedGenres(Some(gs), Some(values))
    ensures IdsOf(values) == IdsOf(gs)
  {
    var unique := UniqueGenres(gs);
    assert forall i :: 0 <= i < |values| ==> values[i].id == keys[i];
    forall id | id in IdsOf(gs)
      ensures id in IdsOf(values)
    {
      var j :| 0 <= j < |keys| && keys[j] == id;
      assert values[j] in values;
    }
  }

  /** The ids of a list of films, in order. */
  function FilmIds(films: seq<Film>): (r: seq<int>)
    ensures |r| == |films| && forall i :: 0 <= i < |r| ==> r[i] == films[i].id
  {
    if films == [] then [] else [films[0].id] + FilmIds(films[1..])
  }

  /** The users with a like row for the film, whose number `COUNT(l.user_id)` gives. */
  function Likers(likes: set<(int, int)>, filmId: int): (r: set<int>)
    ensures forall u :: u in r <==> (filmId, u) in likes
  {
    set p | p in likes && p.0 == filmId :: p.1
  }

  /** The likes table is keyed by (film_id, user_id), so a user counts once per film: the
      MERGE of a new like raises that film's count by one and a repeated one changes nothing,
      the DELETE lowers it by one only when the like was there, and no other film's likers
      change. */
  lemma LikeCountFollowsLikes(likes: set<(int, int)>, filmId: int, userId: int)
    ensures |Likers(likes + {(filmId, userId)}, filmId)|
            == |Likers(likes, filmId)| + if (filmId, userId) in likes then 0 else 1
    ensures |Likers(likes - {(filmId, userId)}, filmId)|
            == |Likers(likes, filmId)| - if (filmId, userId) in likes then 1 else 0
    ensures forall other :: other != filmId ==>
              && Likers(likes + {(filmId, userId)}, other) == Likers(likes, other)
              && Likers(likes - {(filmId, userId)}, other) == Likers(likes, other)
  {
    var before := Likers(likes, filmId);
    assert Likers(likes + {(filmId, userId)}, filmId) == before + {userId};
    assert Likers(likes - {(filmId, userId)}, filmId) == before - {userId};
    if (filmId, userId) in likes {
      assert userId in before;
      assert before + {userId} == before;
      assert |before - {userId}| == |before| - 1;
    } else {
      assert userId !in before;
      assert before - {userId} == before;
      assert |before + {userId}| == |before| + 1;
    }
    forall other | other != filmId
      ensures Likers(likes + {(filmId, userId)}, other) == Likers(likes, other)
      ensures Likers(likes - {(filmId, userId)}, other) == Likers(likes, other)
    {
      assert Likers(likes + {(filmId, userId)}, other) == Likers(likes, other);
      assert Likers(likes - {(filmId, userId)}, other) == Likers(likes, other);
    }
  }

  /** The ids of the film's links that the inner join with the genre table keeps. */
  function JoinedGenreIds(links: set<(int, Option<int>)>, filmId: int, genres: map<int, Genre>): (r: set<int>)
    ensures forall k :: k in r <==> k in genres && (filmId, Some(k)) in links
  {
    var r := set p | p in links && p.0 == filmId && p.1.Some? && p.1.value in genres :: p.1.value;
    assert forall k :: k in genres && (filmId, Some(k)) in links ==> k in r by {
      forall k | k in genres && (filmId, Some(k)) in links
        ensures k in r
      {
        var p := (filmId, Some(k));
        assert p in links && p.0 == filmId && p.1.Some? && p.1.value in genres;
      }
    }
    r
  }

  /** The genre table rows for the ids, in the order of the ids. */
  function GenresAt(ids: seq<int>, genres: map<int, Genre>): (r: seq<Genre>)
    requires forall i :: 0 <= i < |ids| ==> ids[i] in genres
    ensures |r| == |ids|
    ensures forall i :: 0 <= i < |r| ==> r[i] == genres[ids[i]]
  {
    if ids == [] then [] else [genres[ids[0]]] + GenresAt(ids[1..], genres)
  }

  /** Reading the genre rows of catalogued ids: each genre carries its id, and the
      result holds exactly the catalogue genres whose ids are listed. */
  lemma GenresAtSpec(ids: seq<int>, genres: map<int, Genre>)
    requires Validation.GenresKeyed(genres)
    requires forall i :: 0 <= i < |ids| ==> ids[i] in genres
    ensures forall i :: 0 <= i < |ids| ==> GenresAt(ids, genres)[i].id == Some(ids[i])
    ensures forall g: Genre :: g in GenresAt(ids, genres) <==>
              g.id.Some? && g.id.value in ids && g.id.value in genres && genres[g.id.value] == g
  {
    var r := GenresAt(ids, genres);
    assert forall i :: 0 <= i < |r| ==> r[i].id == Some(ids[i]) by {
      forall i | 0 <= i < |r|
        ensures r[i].id == Some(ids[i])
      {
        var k := ids[i];
        assert k in genres;
        assert genres[k].id == Some(k);
        assert r[i] == genres[k];
      }
    }
    forall g: Genre
      ensures g in r <==> g.id.Some? && g.id.value in ids && g.id.value in genres && genres[g.id.value] == g
    {
      if g in r {
        var i :| 0 <= i < |r| && r[i] == g;
        assert ids[i] in ids;
      }
      if g.id.Some? && g.id.value in ids && g.id.value in genres && genres[g.id.value] == g {
        var i :| 0 <= i < |ids| && ids[i] == g.id.value;
        assert r[i] == g;
      }
    }
  }

  /** `SELECT g.* FROM film_genres JOIN genres ... WHERE film_id = ? ORDER BY genre_id` */
  function JoinedGenres(links: set<(int, Option<int>)>, filmId: int, genres: map<int, Genre>): (r: seq<Genre>)
    requires Validation.GenresKeyed(genres)
    ensures forall i :: 0 <= i < |r| ==> r[i].id.Some?
    ensures forall i, j :: 0 <= i < j < |r| ==> r[i].id.value < r[j].id.value
    ensures forall g: Genre :: g in r <==>
              g.id.Some? && g.id.value in genres && genres[g.id.value] == g && (filmId, g.id) in links
  {
    var ids := SortedSet(JoinedGenreIds(links, filmId, genres));
    assert forall i :: 0 <= i < |ids| ==> ids[i] in genres by {
      forall i | 0 <= i < |ids|
        ensures ids[i] in genres
      {
        assert ids[i] in ids;
      }
    }
    GenresAtSpec(ids, genres);
    GenresAt(ids, genres)
  }

  predicate MpaKeyed(catalogue: map<int, Mpa>) {
    forall k :: k in catalogue ==> catalogue[k].id == Some(k)
  }

  class FilmDbStorage {
    /** The reference tables, read-only here. */
    const genres: map<int, Genre>
    const mpaRatings: map<int, Mpa>

    var films: map<int, FilmRow>
    var filmGenres: set<(int, Option<int>)>
    var likes: set<(int, int)>
    /** The next value of the film_id identity column. */
    var nextKey: int

    ghost predicate Valid()
      reads this
    {
      && Validation.GenresKeyed(genres) && MpaKeyed(mpaRatings)
      && nextKey >= 1 && forall k :: k in films ==> 0 < k < nextKey
    }

    constructor (genres: map<int, Genre>, mpaRatings: map<int, Mpa>)
      requires Validation.GenresKeyed(genres) && MpaKeyed(mpaRatings)
      ensures Valid()
      ensures this.genres == genres && this.mpaRatings == mpaRatings
      ensures films == map[] && filmGenres == {} && likes == {}
    {
      this.genres, this.mpaRatings := genres, mpaRatings;
      films, filmGenres, likes, nextKey := map[], {}, {}, 1;
    }

    /** One `INSERT INTO film_genres` per listed genre, in list order. */
    method InsertLinks(filmId: int, values: seq<Genre>)
      modifies this`filmGenres
      ensures filmGenres == old(filmGenres) + LinksFor(filmId, Some(values))
    {
      var i := 0;
      while i < |values|
        invariant 0 <= i <= |values|
        invariant filmGenres == old(filmGenres) + LinksFor(filmId, Some(values[..i]))
      {
        assert values[..i + 1] == values[..i] + [values[i]];
        assert IdsOf(values[..i + 1]) == IdsOf(values[..i]) + {values[i].id};
        filmGenres := filmGenres + {(filmId, values[i].id)};
        i := i + 1;
      }
      assert values[..i] == values;
    }

    /** saveFilmGenres: with a non-empty list, inserts one link per distinct genre id and
        replaces `film.genres` by the de-duplicated genres; otherwise changes nothing. */
    method SaveFilmGenres(film: Film) returns (r: Film)
      modifies this`filmGenres
      ensures filmGenres == old(filmGenres) + LinksFor(film.id, film.genres)
      ensures r == film.(genres := r.genres)
      ensures SavedGenres(film.genres, r.genres)
    {
      if film.genres.Some? && |film.genres.value| > 0 {
        var unique := UniqueGenres(film.genres.value);
        var values, keys := ListValues(unique);
        UniqueValuesAreSaved(film.genres.value, values, keys);
        InsertLinks(film.id, values);
        r := film.(genres := Some(values));
      } else {
        r := film;
      }
    }

    /** Inserts the row under a fresh generated key, then saves the genres under that id. */
    method Create(film: Film) returns (r: Film)
      requires Valid() && film.mpa.Some? && film.mpa.value.id.Some?
      modifies this`films, this`filmGenres, this`nextKey
      ensures Valid()
      ensures r.id > 0 && r.id !in old(films)
      ensures films == old(films)[r.id := RowOf(film)]
      ensures filmGenres == old(filmGenres) + LinksFor(r.id, film.genres)
      ensures r == film.(id := r.id, genres := r.genres)
      ensures SavedGenres(film.genres, r.genres)
      ensures likes == old(likes)
    {
      var id := nextKey;
      nextKey := nextKey + 1;
      films := films[id := RowOf(film)];
      r := SaveFilmGenres(film.(id := id));
    }

    /** updateFilmGenres: deletes every link of the film, then saves the requested genres. */
    method UpdateFilmGenres(film: Film) returns (r: Film)
      modifies this`filmGenres
      ensures filmGenres == WithoutFilm(old(filmGenres), film.id) + LinksFor(film.id, film.genres)
      ensures LinkedIds(filmGenres, film.id) == GenreIdSet(film.genres)
      ensures forall other :: other != film.id ==> LinkedIds(filmGenres, other) == LinkedIds(old(filmGenres), other)
      ensures r == film.(genres := r.genres)
      ensures SavedGenres(film.genres, r.genres)
    {
      ReplaceAllLinks(filmGenres, film.id, film.genres);
      filmGenres := WithoutFilm(filmGenres, film.id);
      r := SaveFilmGenres(film);
    }

    /** `UPDATE films ... WHERE film_id = ?` (a no-op for an absent id), then the genre replace. */
    method Update(film: Film) returns (r: Film)
      requires Valid() && film.mpa.Some? && film.mpa.value.id.Some?
      modifies this`films, this`filmGenres
      ensures Valid()
      ensures films == if film.id in old(films) then old(films)[film.id := RowOf(film)] else old(films)
      ensures filmGenres == WithoutFilm(old(filmGenres), film.id) + LinksFor(film.id, film.genres)
      ensures LinkedIds(filmGenres, film.id) == GenreIdSet(film.genres)
      ensures r == film.(genres := r.genres)
      ensures SavedGenres(film.genres, r.genres)
      ensures likes == old(likes)
    {
      if film.id in films {
        films := films[film.id := RowOf(film)];
      }
      r := UpdateFilmGenres(film);
    }

    /** `MERGE INTO likes ... KEY (film_id, user_id)` */
    method AddLike(filmId: int, userId: int)
      modifies this`likes
      ensures likes == old(likes) + {(filmId, userId)}
    {
      likes := likes + {(filmId, userId)};
    }

    /** `DELETE FROM likes WHERE film_id = ? AND user_id = ?` */
    method RemoveLike(filmId: int, userId: int)
      modifies this`likes
      ensures likes == old(likes) - {(filmId, userId)}
    {
      likes := likes - {(filmId, userId)};
    }

    /** loadFilmGenres over this store's tables; `JoinedGenres` states what it yields. */
    function LoadFilmGenres(filmId: int): seq<Genre>
      requires Valid()
      reads this
    {
      JoinedGenres(filmGenres, filmId, genres)
    }

    /** getById: the film row joined with its rating (absent when the rating is not in the
        catalogue) and with its genres. */
    function GetById(id: int): (r: Option<Film>)
      requires Valid()
      reads this
      ensures r.Some? <==> id in films && films[id].mpaId in mpaRatings
      ensures r.Some? ==> r.value.id == id
      ensures r.Some? ==> var row := films[id];
                r.value == Film(id, row.name, row.description, row.releaseDate, row.duration,
                                Some(mpaRatings[row.mpaId]), Some(LoadFilmGenres(id)))
    {
      if id in films && films[id].mpaId in mpaRatings then
        var row := films[id];
        Some(Film(id, row.name, row.description, row.releaseDate, row.duration,
                  Some(mpaRatings[row.mpaId]), Some(LoadFilmGenres(id))))
      else None
    }

    /** The films that survive the join with mpa_ratings. */
    function Catalogued(): (r: set<int>)
      reads this
      ensures forall id :: id in r <==> id in films && films[id].mpaId in mpaRatings
    {
      set id | id in films && films[id].mpaId in mpaRatings
    }

    /** `COUNT(l.user_id)` over the likes rows of the film (zero for a film without likes). */
    function LikeCount(filmId: int): nat
      reads this
    {
      |Likers(likes, filmId)|
    }

    function LikeCounts(): (m: map<int, nat>)
      reads this
      ensures m.Keys == Catalogued()
      ensures forall id :: id in m ==> m[id] == LikeCount(id)
    {
      map id | id in Catalogued() :: LikeCount(id)
    }

    /** The ids the popularity query returns, in order: at most `count`, taken from every
        catalogued film (liked or not), like counts never increasing, and no film left out
        that has more likes than one listed. Ties are in no promised order. */
    function PopularIds(count: nat): (r: seq<int>)
      reads this
      ensures |r| == if count < |Catalogued()| then count else |Catalogued()|
      ensures Distinct(r)
      ensures forall i :: 0 <= i < |r| ==> r[i] in Catalogued()
      ensures forall i, j :: 0 <= i < j < |r| ==> LikeCount(r[i]) >= LikeCount(r[j])
      ensures forall id, i :: id in Catalogued() && id !in r && 0 <= i < |r| ==> LikeCount(r[i]) >= LikeCount(id)
    {
      var counts := LikeCounts();
      Popular(Catalogued(), counts, count)
    }

    /** The films of `ids`, each as getById shows it. */
    function FilmsOf(ids: seq<int>): (r: seq<Film>)
      requires Valid()
      requires forall i :: 0 <= i < |ids| ==> ids[i] in Catalogued()
      reads this
      ensures FilmIds(r) == ids
      ensures forall i :: 0 <= i < |r| ==> GetById(ids[i]) == Some(r[i])
    {
      if ids == [] then []
      else
        assert ids[0] in Catalogued();
        var film := GetById(ids[0]);
        assert film.Some?;
        var rest := FilmsOf(ids[1..]);
        assert forall i :: 1 <= i < |ids| ==> ids[i] == ids[1..][i - 1];
        var r := [film.value] + rest;
        assert r[1..] == rest;
        assert FilmIds(r) == [ids[0]] + ids[1..];
        r
    }

    /** getPopularFilms: the films of PopularIds, in its order, each as getById shows it. */
    function GetPopularFilms(count: nat): (r: seq<Film>)
      requires Valid()
      reads this
      ensures FilmIds(r) == PopularIds(count)
      ensures forall i :: 0 <= i < |r| ==> GetById(PopularIds(count)[i]) == Some(r[i])
    {
      FilmsOf(PopularIds(count))
    }

    /** getAll: every catalogued film once, in an order the query does not fix. */
    method GetAll() returns (r: seq<Film>)
      requires Valid()
      ensures |r| == |Catalogued()|
      ensures forall i :: 0 <= i < |r| ==> GetById(r[i].id) == Some(r[i])
      ensures forall i, j :: 0 <= i < j < |r| ==> r[i].id != r[j].id
    {
      var found := map id | id in Catalogued() :: GetById(id).value;
      assert found.Keys == Catalogued();
      assert |found| == |found.Keys|;
      ghost var keys;
      r, keys := ListValues(found);
    }
  }
}
