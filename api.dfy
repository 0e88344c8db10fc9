/**
 * The older, single-file revision of the service: form-encoded create and
 * update routes with an optional poster upload, and read and delete by id.
 * Unlike the router revision, its update always adds and commits the row.
 */
module Api {
  import opened Outcomes
  import opened Tables
  import opened DbHelpers
  import Movies

  /** Where every submitted poster is said to live; the file itself is not stored. */
  const PosterUrl := "/static/path/poster_img.jpg"

  /** An uploaded file; its content is never inspected. */
  datatype UploadFile = UploadFile(filename: string, content: seq<bv8>)

  /**
   * `handle_poster_submission`: no file, no URL; any file, the fixed poster
   * URL. A leaf constructor: its contract is its whole meaning.
   */
  function HandlePosterSubmission(poster: Option<UploadFile>): (url: Option<string>)
    ensures url.None? <==> poster.None?
    ensures url.Some? ==> url.value == PosterUrl
  {
    if poster.None? then None else Some(PosterUrl)
  }

  /**
   * The update payload the form fields build. The poster URL is passed under
   * a `poster` keyword that the payload does not declare, so it is dropped
   * and the image field stays unset; the genres travel separately.
   */
  function FormUpdate(title: Option<string>, year: Option<int>, runtime: Option<int>, url: Option<string>,
                      poster: Option<UploadFile>, rating: Option<string>, nsfw: Option<bool>): (u: MovieUpdate)
    ensures u.genres.None? && u.img.None?
    ensures u.title == title && u.year == year && u.runtime == runtime && u.url == url && u.rating == rating && u.nsfw == nsfw
    ensures (SuppliedFields(u) == []) <==>
              title.None? && year.None? && runtime.None? && url.None? && rating.None? && nsfw.None?
  {
    var u := MovieUpdate(title, year, runtime, url, None, rating, nsfw, None);
    SuppliedFieldsEmpty(u);
    u
  }

  /**
   * `create_movie` from form fields: `year` is validated first; a missing
   * runtime reaches the database as NULL and fails the commit like any
   * other constraint, with 422. The poster URL is computed but, passed under
   * an undeclared `poster` keyword, never reaches the row.
   */
  method CreateMovie(database: Database, title: string, year: int, runtime: Option<int>, url: Option<string>,
                     poster: Option<UploadFile>, rating: Option<string>, nsfw: bool, genres: seq<string>)
    returns (r: Result<Movie>)
    requires database.Valid()
    modifies database
    ensures database.Valid()
    ensures !ValidYear(year) ==> r == Err(ValidationFailed)
    ensures r.Ok? <==> ValidYear(year) && runtime.Some? && Distinct(genres) &&
                       !YearTitleExists(old(database.rows.movies), year, title)
    ensures r.Err? ==> database.rows == old(database.rows)
    ensures r.Err? && ValidYear(year) ==> r.error == HttpError(422, CommitErrorDetail)
    ensures r.Ok? ==> r.value.(genres := []) ==
                      Movie(NextRowId(MovieIds(old(database.rows.movies))), title, year, runtime, url,
                            None, rating, nsfw, true, false, [])
    ensures r.Ok? ==> GenreNamesAre(r.value.genres, genres)
    ensures r.Ok? ==> database.rows.genres == ResolveAll(old(database.rows.genres), genres).table &&
                      r.value.genres == ResolveAll(old(database.rows.genres), genres).rows
    ensures r.Ok? ==> database.rows.movies == old(database.rows.movies) + [r.value] &&
                      database.rows.users == old(database.rows.users)
  {
    if !ValidYear(year) {
      return Err(ValidationFailed);
    }
    var posterUrl := HandlePosterSubmission(poster);
    var row := Movie(0, title, year, runtime, url, None, rating, nsfw, false, false, []);
    r := Movies.InsertMovie(database, row, genres);
  }

  /** `read_movie`: the stored row with this id, or 404 "Movie not found". */
  method ReadMovie(database: Database, id: int) returns (r: Result<Movie>)
    requires database.Valid()
    ensures r.Ok? <==> exists i :: 0 <= i < |database.rows.movies| && database.rows.movies[i].id == id
    ensures r.Ok? ==> r.value in database.rows.movies && r.value.id == id
    ensures r.Err? ==> r.error == HttpError(404, MovieNotFound)
  {
    var found := FindMovie(database.rows.movies, id);
    if found.None? {
      return Err(HttpError(404, MovieNotFound));
    }
    r := Ok(database.rows.movies[found.value]);
  }

  /**
   * `update_movie` from form fields: validate `year`, load the row (404
   * before anything else happens), set every supplied field, replace the
   * genres when a list is given, then add and commit in every case. When
   * nothing is supplied the commit writes nothing, so the stored row and its
   * `updated_at` stay as they were.
   */
  method UpdateMovie(database: Database, id: int, title: Option<string>, year: Option<int>, runtime: Option<int>,
                     url: Option<string>, poster: Option<UploadFile>, rating: Option<string>, nsfw: Option<bool>,
                     genres: Option<seq<string>>)
    returns (r: Result<Movie>)
    requires database.Valid()
    modifies database
    ensures database.Valid()
    ensures r.Err? ==> database.rows == old(database.rows)
    ensures year.Some? && !ValidYear(year.value) ==> r == Err(ValidationFailed)
    ensures !(year.Some? && !ValidYear(year.value)) && FindMovie(old(database.rows.movies), id).None? ==>
              r == Err(HttpError(404, MovieNotFound))
    ensures r.Ok? ==> FindMovie(old(database.rows.movies), id).Some?
    ensures !(year.Some? && !ValidYear(year.value)) && FindMovie(old(database.rows.movies), id).Some? ==>
              var k := FindMovie(old(database.rows.movies), id).value;
              var u := FormUpdate(title, year, runtime, url, poster, rating, nsfw);
              var merged := MergeUpdate(old(database.rows.movies)[k], u);
              (r.Ok? <==> !Movies.UpdateClashes(old(database.rows), merged, genres)) &&
              (r.Err? ==> r.error == if Movies.FlushFails(old(database.rows.movies), merged, genres) then Unhandled
                                     else HttpError(422, CommitErrorDetail)) &&
              (r.Ok? ==> r.value == Movies.UpdatedRow(old(database.rows.movies)[k], merged,
                                                      Movies.UpdatedGenres(old(database.rows), merged.genres, genres).rows) &&
                         database.rows == old(database.rows).(movies := old(database.rows.movies)[k := r.value],
                                                              genres := Movies.UpdatedGenres(old(database.rows), merged.genres, genres).table)) &&
              (r.Ok? && genres.Some? && Distinct(genres.value) ==> GenreNamesAre(r.value.genres, genres.value)) &&
              (SuppliedFields(u) == [] && genres.None? ==>
                 r == Ok(old(database.rows.movies)[k]) && database.rows == old(database.rows))
  {
    if year.Some? && !ValidYear(year.value) {
      return Err(ValidationFailed);
    }
    var found := FindMovie(database.rows.movies, id);
    if found.None? {
      return Err(HttpError(404, MovieNotFound));
    }
    var k := found.value;
    var posterUrl := HandlePosterSubmission(poster);
    var u := FormUpdate(title, year, runtime, url, poster, rating, nsfw);
    r := UpdateStored(database, k, u, genres);
  }

  /** The part of `update_movie` after the row at position `k` is loaded: set the form's fields, assign the genres, commit. */
  method UpdateStored(database: Database, k: nat, u: MovieUpdate, genres: Option<seq<string>>) returns (r: Result<Movie>)
    requires database.Valid() && k < |database.rows.movies|
    requires u.genres.None? && (u.year.Some? ==> ValidYear(u.year.value))
    modifies database
    ensures database.Valid()
    ensures r.Err? ==> database.rows == old(database.rows)
    ensures var merged := MergeUpdate(old(database.rows.movies)[k], u);
            r.Ok? <==> !Movies.UpdateClashes(old(database.rows), merged, genres)
    ensures var merged := MergeUpdate(old(database.rows.movies)[k], u);
            r.Err? ==> r.error == if Movies.FlushFails(old(database.rows.movies), merged, genres) then Unhandled
                                  else HttpError(422, CommitErrorDetail)
    ensures var merged := MergeUpdate(old(database.rows.movies)[k], u);
            r.Ok? ==> r.value == Movies.UpdatedRow(old(database.rows.movies)[k], merged,
                                                   Movies.UpdatedGenres(old(database.rows), merged.genres, genres).rows) &&
                      database.rows == old(database.rows).(movies := old(database.rows.movies)[k := r.value],
                                                           genres := Movies.UpdatedGenres(old(database.rows), merged.genres, genres).table)
    ensures r.Ok? && genres.Some? && Distinct(genres.value) ==> GenreNamesAre(r.value.genres, genres.value)
    ensures SuppliedFields(u) == [] && genres.None? ==> r == Ok(old(database.rows.movies)[k]) && database.rows == old(database.rows)
  {
    var before := database.rows.movies[k];
    var session := new Session(database);
    var setResult := Movies.SetAttrs(before, u);
    var current := setResult.value;
    MergeUpdateKeeps(before, u);
    assert current == MergeUpdate(before, u) && current.genres == before.genres;
    OwnYearTitleFree(database.rows.movies, k);
    ghost var stored := database.rows;
    r := Movies.StoreUpdate(database, session, k, current, genres);
    if SuppliedFields(u) == [] && genres.None? {
      assert current == before;
      assert stored.movies[k := before] == stored.movies;
    }
  }

  /** `delete_movie`: remove the row with this id and answer `{"ok": True}`; an absent id is a 404. */
  method DeleteMovie(database: Database, id: int) returns (r: Result<Movies.Deleted>)
    requires database.Valid()
    modifies database
    ensures database.Valid()
    ensures r.Ok? <==> exists i :: 0 <= i < |old(database.rows.movies)| && old(database.rows.movies)[i].id == id
    ensures r.Err? ==> r.error == HttpError(404, MovieNotFound) && database.rows == old(database.rows)
    ensures r.Ok? ==> r.value == Movies.Deleted(true)
    ensures r.Ok? ==> var k := FindMovie(old(database.rows.movies), id).value;
                      database.rows ==
                      old(database.rows).(movies := old(database.rows.movies)[..k] + old(database.rows.movies)[k + 1..])
  {
    var found := FindMovie(database.rows.movies, id);
    if found.None? {
      return Err(HttpError(404, MovieNotFound));
    }
    var k := found.value;
    var ms := database.rows.movies;
    var session := new Session(database);
    session.Delete(k);
    ConstraintsDelete(ms, database.rows.genres, database.rows.users, k);
    StampUnchanged(ms, ms[..k] + ms[k + 1..]);
    var e := session.Commit();
    assert e.None?;
    r := Ok(Movies.Deleted(true));
  }
}
