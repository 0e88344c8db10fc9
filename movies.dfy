/**
 * The movie routes: search through the metadata provider, and create, read,
 * update and delete over the store. Each handler opens its own session on
 * the database, as the framework's session dependency does per request.
 */
module Movies {
  import opened Outcomes
  import opened Tables
  import opened DbHelpers
  import Tmdb

  /** One search hit as the provider returns it. */
  datatype SearchResult = SearchResult(
    id: Option<int>, title: Option<string>, overview: Option<string>,
    releaseDate: Option<string>, posterPath: Option<string>, genreIds: seq<int>)

  /** The `{"ok": True}` body a delete answers with. */
  datatype Deleted = Deleted(ok: bool)

  /**
   * `search_movies` once the provider has answered with `status` and the
   * parsed `results` list: a 4xx is the caller's fault, any other status the
   * HTTP client raises for is a gateway timeout.
   */
  function SearchMovies(status: int, results: seq<SearchResult>): (r: Result<seq<SearchResult>>)
    ensures 400 <= status < 500 ==> r == Err(HttpError(400, Tmdb.BadSearchParams))
    ensures !(400 <= status < 500) && !(200 <= status < 300) ==> r == Err(HttpError(504, Tmdb.GatewayTimeout))
    ensures r.Ok? <==> 200 <= status < 300
    ensures r.Ok? ==> r.value == results
  {
    if 400 <= status < 500 then Err(HttpError(400, Tmdb.BadSearchParams))
    else if !(200 <= status < 300) then Err(HttpError(504, Tmdb.GatewayTimeout))
    else Ok(results)
  }

  /** The search route classifies a status exactly as the client helper of the metadata module does. */
  lemma SearchAgreesWithRespErrorHandling(status: int, results: seq<SearchResult>)
    ensures SearchMovies(status, results).Err? <==> Tmdb.RespErrorHandling(status).Some?
    ensures SearchMovies(status, results).Err? ==> Tmdb.RespErrorHandling(status) == Some(SearchMovies(status, results).error)
  {
  }

  // ---------------------------------------------------------------------
  // The two loops every write route runs
  // ---------------------------------------------------------------------

  /**
   * The genre loop: `get_or_create` each name in order and collect the rows.
   * Names already in the table reuse their first row; new names get new rows,
   * which later names in the same list then find. The first lookup flushes
   * the session, so pending changes that violate a constraint fail the loop
   * there.
   */
  method ResolveGenres(session: Session, names: seq<string>) returns (r: Result<seq<Genre>>)
    modifies session
    ensures names != [] && !Constraints(old(session.work)) ==> r == Err(Unhandled) && session.work == old(session.work)
    ensures names == [] || Constraints(old(session.work)) ==>
              r == Ok(ResolveAll(old(session.work.genres), names).rows) &&
              session.work == old(session.work).(genres := ResolveAll(old(session.work.genres), names).table)
  {
    ghost var start := session.work;
    var gs := [];
    var i := 0;
    while i < |names|
      invariant 0 <= i <= |names|
      invariant session.work.movies == start.movies && session.work.users == start.users
      invariant session.work.genres == ResolveAll(start.genres, names[..i]).table
      invariant gs == ResolveAll(start.genres, names[..i]).rows
      invariant i == 0 ==> session.work == start
      invariant i > 0 ==> Constraints(start) && Constraints(session.work)
    {
      ResolveAllSnoc(start.genres, names, i);
      var g := session.GetOrCreate(names[i]);
      if g.Err? {
        return Err(g.error);
      }
      gs := gs + [g.value];
      i := i + 1;
    }
    assert names[..i] == names;
    r := Ok(gs);
  }

  /**
   * The setattr loop over `movie.dict(exclude_defaults=True)`: each supplied
   * column replaces the row's value, and a supplied empty `genres` list
   * empties the relationship; a non-empty `genres` list puts name strings
   * on the relationship and fails the request.
   */
  method SetAttrs(row: Movie, u: MovieUpdate) returns (r: Result<Movie>)
    ensures r.Err? <==> u.genres.Some? && u.genres.value != []
    ensures r.Err? ==> r.error == Unhandled
    ensures r.Ok? ==> r.value == MergeBody(row, u)
  {
    var fields := SuppliedFields(u);
    SuppliedFieldsShape(u);
    var current := row;
    var i := 0;
    while i < |fields|
      invariant 0 <= i <= |fields|
      invariant SettableFields(fields[..i])
      invariant current == ApplyFields(row, fields[..i])
    {
      if !Settable(fields[i]) {
        assert !SettableFields(fields);
        return Err(Unhandled);
      }
      ApplyFieldsSnoc(row, fields[..i], fields[i]);
      assert fields[..i + 1] == fields[..i] + [fields[i]];
      current := SetAttr(current, fields[i]);
      i := i + 1;
    }
    assert fields[..i] == fields;
    SetAttrsIsMerge(row, u);
    r := Ok(current);
  }

  // ---------------------------------------------------------------------
  // Create
  // ---------------------------------------------------------------------

  /**
   * The shared tail of both create routes: resolve the genre names, add the
   * row and commit. The commit fails on a repeated genre name (a duplicate
   * link key), a missing runtime, a bad year or a taken (year, title).
   */
  method InsertMovie(database: Database, row: Movie, names: seq<string>) returns (r: Result<Movie>)
    requires database.Valid()
    modifies database
    ensures database.Valid()
    ensures r.Ok? <==> ValidYear(row.year) && row.runtime.Some? && Distinct(names) &&
                       !YearTitleExists(old(database.rows.movies), row.year, row.title)
    ensures r.Err? ==> r.error == HttpError(422, CommitErrorDetail) && database.rows == old(database.rows)
    ensures r.Ok? ==> r.value.(genres := []) ==
                      row.(id := NextRowId(MovieIds(old(database.rows.movies))), createdAt := true, updatedAt := false, genres := [])
    ensures r.Ok? ==> forall i :: 0 <= i < |old(database.rows.movies)| ==> old(database.rows.movies)[i].id != r.value.id
    ensures r.Ok? ==> database.rows.genres == ResolveAll(old(database.rows.genres), names).table &&
                      r.value.genres == ResolveAll(old(database.rows.genres), names).rows
    ensures r.Ok? ==> GenreNamesAre(r.value.genres, names) && ResolvedIn(database.rows.genres, names, r.value.genres)
    ensures r.Ok? ==> database.rows.movies == old(database.rows.movies) + [r.value] &&
                      database.rows.users == old(database.rows.users)
    ensures r.Ok? ==> AppendsMissing(old(database.rows.genres), database.rows.genres, names) &&
                      LookupsKept(old(database.rows.genres), database.rows.genres)
  {
    var session := new Session(database);
    var resolved := ResolveGenres(session, names);
    var gs := resolved.value;
    ResolveAllShape(database.rows.genres, names);
    ResolveAllNamesIds(database.rows.genres, names);
    var added := session.Add(row.(genres := gs));
    ConstraintsInsert(database.rows.movies, session.work.genres, database.rows.users, added);
    StampInsert(database.rows.movies, added);
    var e := session.Commit();
    if e.Some? {
      return Err(e.value);
    }
    r := Ok(added.(createdAt := true, updatedAt := false));
  }

  /**
   * The row a create payload describes, before the database assigns its id
   * and timestamps. A leaf constructor: its contract is its whole meaning.
   */
  function NewRow(movie: MovieCreate): (m: Movie)
    ensures m.title == movie.title && m.year == movie.year && m.runtime == Some(movie.runtime)
    ensures m.url == movie.url && m.img == movie.img && m.rating == movie.rating && m.nsfw == movie.nsfw
    ensures m.genres == [] && !m.createdAt && !m.updatedAt
  {
    Movie(0, movie.title, movie.year, Some(movie.runtime), movie.url, movie.img, movie.rating, movie.nsfw, false, false, [])
  }

  /**
   * `create_movie`: the payload's year is validated first; the genres come
   * from the separate `genres` body list (the payload's own `genres` field is
   * not copied onto the row). A (year, title) already stored, or a name
   * listed twice, is a 422 and nothing is stored.
   */
  method CreateMovie(database: Database, movie: MovieCreate, genres: seq<string>) returns (r: Result<Movie>)
    requires database.Valid()
    modifies database
    ensures database.Valid()
    ensures !ValidYear(movie.year) ==> r == Err(ValidationFailed)
    ensures r.Ok? <==> ValidYear(movie.year) && Distinct(genres) &&
                       !YearTitleExists(old(database.rows.movies), movie.year, movie.title)
    ensures r.Err? ==> database.rows == old(database.rows)
    ensures r.Err? && ValidYear(movie.year) ==> r.error == HttpError(422, CommitErrorDetail)
    ensures r.Ok? ==> r.value.(genres := []) ==
                      NewRow(movie).(id := NextRowId(MovieIds(old(database.rows.movies))), createdAt := true)
    ensures r.Ok? ==> r.value.createdAt && !r.value.updatedAt && GenreNamesAre(r.value.genres, genres)
    ensures r.Ok? ==> database.rows.genres == ResolveAll(old(database.rows.genres), genres).table &&
                      r.value.genres == ResolveAll(old(database.rows.genres), genres).rows
    ensures r.Ok? ==> database.rows.movies == old(database.rows.movies) + [r.value] &&
                      database.rows.users == old(database.rows.users)
  {
    if !ValidYear(movie.year) {
      return Err(ValidationFailed);
    }
    r := InsertMovie(database, NewRow(movie), genres);
  }

  // ---------------------------------------------------------------------
  // Read
  // ---------------------------------------------------------------------

  /** `read_movie`: the stored row with this id, or 404. */
  method ReadMovie(database: Database, id: int) returns (r: Result<Movie>)
    requires database.Valid()
    ensures r.Ok? <==> exists i :: 0 <= i < |database.rows.movies| && database.rows.movies[i].id == id
    ensures r.Ok? ==> r.value in database.rows.movies && r.value.id == id
    ensures r.Ok? ==> forall m :: m in database.rows.movies && m.id == id ==> m == r.value
    ensures r.Err? ==> r.error == HttpError(404, MovieNotFound)
  {
    var session := new Session(database);
    r := session.GetObjectOr404(id);
    if r.Ok? {
      forall m | m in database.rows.movies && m.id == id
        ensures m == r.value
      {
        var i :| 0 <= i < |database.rows.movies| && database.rows.movies[i] == m;
        var j :| 0 <= j < |database.rows.movies| && database.rows.movies[j] == r.value;
        FindMovieAt(database.rows.movies, i);
        FindMovieAt(database.rows.movies, j);
      }
    }
  }

  // ---------------------------------------------------------------------
  // Update
  // ---------------------------------------------------------------------

  /** The payload a missing body stands for: no field supplied. */
  function BodyOrEmpty(movie: Option<MovieUpdate>): (u: MovieUpdate)
    ensures movie.None? ==> SuppliedFields(u) == []
    ensures movie.Some? ==> u == movie.value
  {
    SuppliedFieldsEmpty(MovieUpdate());
    if movie.Some? then movie.value else MovieUpdate()
  }

  /** The body supplies a non-empty `genres` list, which the setattr loop cannot set. */
  predicate BodyGenresFail(movie: Option<MovieUpdate>)
  {
    movie.Some? && movie.value.genres.Some? && movie.value.genres.value != []
  }

  /** The body's `year` fails the field validator. */
  predicate YearRejected(movie: Option<MovieUpdate>)
  {
    movie.Some? && movie.value.year.Some? && !ValidYear(movie.value.year.value)
  }

  /**
   * The update fails before its commit: the first genre lookup autoflushes
   * the changed row, and a (year, title) another row holds raises there.
   */
  predicate FlushFails(ms: seq<Movie>, merged: Movie, genres: Option<seq<string>>)
  {
    genres.Some? && genres.value != [] && YearTitleTaken(ms, merged.year, merged.title, merged.id)
  }

  /**
   * Storing the pending row `merged` violates a constraint: its (year,
   * title) belongs to another row, or a genre it was not linked to is
   * listed twice.
   */
  predicate UpdateClashes(db: Db, merged: Movie, genres: Option<seq<string>>)
  {
    YearTitleTaken(db.movies, merged.year, merged.title, merged.id) ||
    (genres.Some? && NewLinkRepeated(merged.genres, ResolveAll(db.genres, genres.value).rows))
  }

  /**
   * The genre table and the link rows after a committed update of a row
   * whose relationship holds `linked` once its columns are set: the table
   * the genre loop leaves and the links it sets when a list is given, both
   * unchanged otherwise.
   */
  function UpdatedGenres(db: Db, linked: seq<Genre>, genres: Option<seq<string>>): Resolution
  {
    if genres.None? then Resolution(db.genres, linked)
    else
      var res := ResolveAll(db.genres, genres.value);
      Resolution(res.table, LinkRows(linked, res.rows))
  }

  /**
   * The row a committed update of `before` stores: the merged columns, the
   * new link rows, the original `created_at`, and `updated_at` set once any
   * column has actually changed.
   */
  function UpdatedRow(before: Movie, merged: Movie, links: seq<Genre>): Movie
  {
    merged.(createdAt := before.createdAt, updatedAt := before.updatedAt || !SameColumns(before, merged), genres := links)
  }

  /**
   * `movie.genres = [get_or_create(...) for ...]` on row `k` of a session:
   * run the genre loop, then give the row the link rows the flush leaves.
   */
  method LinkGenres(session: Session, k: nat, names: seq<string>) returns (r: Result<Movie>)
    requires k < |session.work.movies|
    modifies session
    ensures names != [] && !Constraints(old(session.work)) ==> r == Err(Unhandled) && session.work == old(session.work)
    ensures names == [] || Constraints(old(session.work)) ==>
              r.Ok? &&
              r.value == old(session.work.movies)[k].(genres := LinkRows(old(session.work.movies)[k].genres,
                                                                         ResolveAll(old(session.work.genres), names).rows)) &&
              session.work == Db(old(session.work.movies)[k := r.value], ResolveAll(old(session.work.genres), names).table,
                                 old(session.work.users))
  {
    var row := session.work.movies[k];
    var resolved := ResolveGenres(session, names);
    if resolved.Err? {
      return Err(resolved.error);
    }
    row := row.(genres := LinkRows(row.genres, resolved.value));
    session.Put(k, row);
    r := Ok(row);
  }

  /**
   * The genre block of both update routes: with the changed row `merged`
   * pending in the session, resolve the names and set the row's genres. The
   * first lookup's autoflush is where a taken (year, title) fails.
   */
  method AssignGenres(session: Session, k: nat, merged: Movie, genres: Option<seq<string>>) returns (r: Result<Movie>)
    requires Constraints(session.work) && k < |session.work.movies| && merged.id == session.work.movies[k].id
    requires GenreIdsDistinct(merged.genres) && ValidYear(merged.year) && merged.runtime.Some?
    modifies session
    ensures r.Err? <==> FlushFails(old(session.work.movies), merged, genres)
    ensures r.Err? ==> r.error == Unhandled
    ensures r.Ok? ==> r.value == merged.(genres := UpdatedGenres(old(session.work), merged.genres, genres).rows)
    ensures r.Ok? ==> session.work == Db(old(session.work.movies)[k := r.value], UpdatedGenres(old(session.work), merged.genres, genres).table,
                                         old(session.work.users))
    ensures r.Ok? ==> GenreIdsDistinct(session.work.genres)
    ensures r.Ok? ==> (RowValid(r.value) <==>
                       !(genres.Some? && NewLinkRepeated(merged.genres, ResolveAll(old(session.work.genres), genres.value).rows)))
    ensures r.Ok? && genres.Some? && Distinct(genres.value) ==> GenreNamesAre(r.value.genres, genres.value)
  {
    ghost var ms, table := session.work.movies, session.work.genres;
    ConstraintsReplace(ms, table, session.work.users, k, merged);
    session.Put(k, merged);
    if genres.None? {
      return Ok(merged);
    }
    r := LinkGenres(session, k, genres.value);
    if r.Err? {
      return;
    }
    ghost var rows := ResolveAll(table, genres.value).rows;
    ResolveAllNamesIds(table, genres.value);
    LinkRowsDistinct(merged.genres, rows);
    if Distinct(genres.value) {
      LinkRowsNoRepeats(merged.genres, rows);
    }
  }

  /**
   * Apply the merged row and the genre list to row `k` of a session and
   * commit. Shared by both update routes once the row is loaded and its
   * columns set.
   */
  method StoreUpdate(database: Database, session: Session, k: nat, merged: Movie, genres: Option<seq<string>>)
    returns (r: Result<Movie>)
    requires database.Valid() && session.database == database && session.work == database.rows
    requires k < |database.rows.movies| && merged.id == database.rows.movies[k].id
    requires GenreIdsDistinct(merged.genres)
    requires merged.createdAt == database.rows.movies[k].createdAt && merged.updatedAt == database.rows.movies[k].updatedAt
    requires ValidYear(merged.year) && merged.runtime.Some?
    modifies database, session
    ensures database.Valid()
    ensures r.Ok? <==> !UpdateClashes(old(database.rows), merged, genres)
    ensures r.Err? ==> database.rows == old(database.rows)
    ensures r.Err? ==> r.error == if FlushFails(old(database.rows.movies), merged, genres) then Unhandled
                                  else HttpError(422, CommitErrorDetail)
    ensures r.Ok? ==> r.value == UpdatedRow(old(database.rows.movies)[k], merged, UpdatedGenres(old(database.rows), merged.genres, genres).rows)
    ensures r.Ok? ==> database.rows == old(database.rows).(movies := old(database.rows.movies)[k := r.value],
                                                          genres := UpdatedGenres(old(database.rows), merged.genres, genres).table)
    ensures r.Ok? && genres.Some? && Distinct(genres.value) ==> GenreNamesAre(r.value.genres, genres.value)
  {
    ghost var ms := database.rows.movies;
    var pending := AssignGenres(session, k, merged, genres);
    if pending.Err? {
      return Err(pending.error);
    }
    var row := pending.value;
    ConstraintsReplace(ms, session.work.genres, database.rows.users, k, row);
    StampReplace(ms, k, row);
    var e := session.Commit();
    if e.Some? {
      return Err(e.value);
    }
    r := Ok(database.rows.movies[k]);
  }

  /**
   * `update_movie`: validate the body, load the row (404 when absent), run
   * the setattr loop over the supplied fields (an empty body `genres` list
   * empties the relationship, a non-empty one fails), replace the genres
   * when a list is given, and write only when a body or a genre list came with the
   * request; with neither, the row is returned as stored and nothing is
   * written, so `updated_at` keeps its value.
   */
  method UpdateMovie(database: Database, id: int, movie: Option<MovieUpdate>, genres: Option<seq<string>>)
    returns (r: Result<Movie>)
    requires database.Valid()
    modifies database
    ensures database.Valid()
    ensures r.Err? ==> database.rows == old(database.rows)
    ensures YearRejected(movie) ==> r == Err(ValidationFailed)
    ensures !YearRejected(movie) && FindMovie(old(database.rows.movies), id).None? ==>
              r == Err(HttpError(404, MovieNotFound))
    ensures r.Ok? ==> FindMovie(old(database.rows.movies), id).Some?
    ensures !YearRejected(movie) && FindMovie(old(database.rows.movies), id).Some? ==>
              var k := FindMovie(old(database.rows.movies), id).value;
              var before := old(database.rows.movies)[k];
              var merged := MergeBody(before, BodyOrEmpty(movie));
              (BodyGenresFail(movie) ==> r == Err(Unhandled)) &&
              (movie.None? && genres.None? ==> r == Ok(before) && database.rows == old(database.rows)) &&
              (r.Ok? <==> !BodyGenresFail(movie) &&
                          ((movie.None? && genres.None?) || !UpdateClashes(old(database.rows), merged, genres))) &&
              (r.Err? && !BodyGenresFail(movie) ==>
                 r.error == if FlushFails(old(database.rows.movies), merged, genres) then Unhandled
                            else HttpError(422, CommitErrorDetail)) &&
              (r.Ok? ==> r.value == UpdatedRow(before, merged, UpdatedGenres(old(database.rows), merged.genres, genres).rows) &&
                         database.rows == old(database.rows).(movies := old(database.rows.movies)[k := r.value],
                                                              genres := UpdatedGenres(old(database.rows), merged.genres, genres).table)) &&
              (r.Ok? && genres.Some? && Distinct(genres.value) ==> GenreNamesAre(r.value.genres, genres.value))
  {
    if YearRejected(movie) {
      return Err(ValidationFailed);
    }
    var session := new Session(database);
    var loaded := session.GetObjectOr404(id);
    if loaded.Err? {
      return Err(loaded.error);
    }
    var k := FindMovie(session.work.movies, id).value;
    var before := session.work.movies[k];
    FindMovieAt(session.work.movies, k);
    var current := before;
    if movie.Some? {
      var setResult := SetAttrs(before, movie.value);
      if setResult.Err? {
        return Err(setResult.error);
      }
      current := setResult.value;
    }
    MergeUpdateKeeps(before, BodyOrEmpty(movie));
    assert current == MergeBody(before, BodyOrEmpty(movie));
    if movie.Some? || genres.Some? {
      r := StoreUpdate(database, session, k, current, genres);
    } else {
      assert database.rows.movies[k := before] == database.rows.movies;
      r := Ok(before);
    }
  }

  // ---------------------------------------------------------------------
  // Delete
  // ---------------------------------------------------------------------

  /**
   * `delete_movie`: remove the row with this id (its genre links go with
   * it) and answer `{"ok": True}`; an absent id is a 404. Every other row
   * and table stays as it was.
   */
  method DeleteMovie(database: Database, id: int) returns (r: Result<Deleted>)
    requires database.Valid()
    modifies database
    ensures database.Valid()
    ensures r.Ok? <==> exists i :: 0 <= i < |old(database.rows.movies)| && old(database.rows.movies)[i].id == id
    ensures r.Err? ==> r.error == HttpError(404, MovieNotFound) && database.rows == old(database.rows)
    ensures r.Ok? ==> r.value == Deleted(true)
    ensures r.Ok? ==> var k := FindMovie(old(database.rows.movies), id).value;
                      database.rows ==
                      old(database.rows).(movies := old(database.rows.movies)[..k] + old(database.rows.movies)[k + 1..])
    ensures r.Ok? ==> forall m :: m in database.rows.movies <==> m in old(database.rows.movies) && m.id != id
  {
    var session := new Session(database);
    var loaded := session.GetObjectOr404(id);
    if loaded.Err? {
      return Err(loaded.error);
    }
    var k := FindMovie(session.work.movies, id).value;
    var ms := database.rows.movies;
    session.Delete(k);
    ConstraintsDelete(ms, database.rows.genres, database.rows.users, k);
    StampUnchanged(ms, ms[..k] + ms[k + 1..]);
    var e := session.Commit();
    assert e.None?;
    RemovedOnly(ms, k);
    r := Ok(Deleted(true));
  }

  /** With unique ids, dropping position `k` drops exactly the rows with that row's id. */
  lemma RemovedOnly(ms: seq<Movie>, k: nat)
    requires MovieIdsUnique(ms) && k < |ms|
    ensures forall m :: m in ms[..k] + ms[k + 1..] <==> m in ms && m.id != ms[k].id
  {
    var rest := ms[..k] + ms[k + 1..];
    assert forall i :: 0 <= i < |rest| ==> rest[i] == ms[if i < k then i else i + 1];
    forall m | m in ms && m.id != ms[k].id
      ensures m in rest
    {
      var i :| 0 <= i < |ms| && ms[i] == m;
      assert i != k;
      if i < k { assert rest[i] == m; } else { assert rest[i - 1] == m; }
    }
    forall m | m in rest
      ensures m in ms && m.id != ms[k].id
    {
      var i :| 0 <= i < |rest| && rest[i] == m;
      var j := if i < k then i else i + 1;
      assert ms[j] == m && j != k;
    }
  }
}
