/**
 * The metadata-provider client: how an upstream response status becomes a
 * local error, how the regional content rating is read out of the nested
 * release-date records, and which genre names a detail response carries.
 * The HTTP requests themselves are not modelled: a response is its status
 * code plus its already-parsed body.
 */
module Tmdb {
  import opened Outcomes

  const BadSearchParams := "Bad search params"
  /** The detail the framework gives an HTTPException raised with 504 and no detail. */
  const GatewayTimeout := "Gateway Timeout"
  /** The only region whose certifications count. */
  const UsRegion := "US"

  /** Client-error status class (section 15.5 of RFC 9110). */
  predicate IsClientError(status: int) { 400 <= status < 500 }

  /** Server-error status class (section 15.6 of RFC 9110). */
  predicate IsServerError(status: int) { 500 <= status < 600 }

  /** Successful status class (section 15.3 of RFC 9110); the HTTP client raises for every other status. */
  predicate IsSuccess(status: int) { 200 <= status < 300 }

  /**
   * `resp_error_handling`: None when the handler returns normally, otherwise
   * the error it raises.
   */
  function RespErrorHandling(status: int): (r: Option<Error>)
    ensures r.None? <==> IsSuccess(status)
    ensures IsClientError(status) ==> r == Some(HttpError(400, BadSearchParams))
    ensures IsServerError(status) ==> r == Some(HttpError(504, GatewayTimeout))
    ensures r.Some? ==> r.value.Status() in {400, 504}
    ensures r.Some? && r.value.Status() == 400 <==> IsClientError(status)
  {
    if 400 <= status < 500 then
      Some(HttpError(400, BadSearchParams))
    else if !(200 <= status < 300) then
      Some(HttpError(504, GatewayTimeout))
    else
      None
  }

  // ---------------------------------------------------------------------
  // Release dates and the content rating
  // ---------------------------------------------------------------------

  datatype ReleaseDate = ReleaseDate(certification: string, releaseDate: string, releaseType: int)

  /** One region's entry: its ISO 3166-1 code and its release dates, in the order received. */
  datatype RegionResult = RegionResult(region: string, releaseDates: seq<ReleaseDate>)

  datatype ReleaseDates = ReleaseDates(results: seq<RegionResult>)

  /** Entry `j` has a non-empty certification and no later entry has one. */
  ghost predicate LastCertifiedAt(rs: seq<ReleaseDate>, j: int)
  {
    0 <= j < |rs| && rs[j].certification != "" &&
    forall k :: j < k < |rs| ==> rs[k].certification == ""
  }

  /**
   * The inner loop of `get_rating_from_release_dates`: walk one region's
   * release dates backwards and take the first non-empty certification.
   */
  function LastCertification(rs: seq<ReleaseDate>): (r: Option<string>)
    ensures r.None? <==> forall j :: 0 <= j < |rs| ==> rs[j].certification == ""
    ensures r.Some? ==> exists j :: LastCertifiedAt(rs, j) && rs[j].certification == r.value
  {
    if rs == [] then None
    else
      var n := |rs| - 1;
      if rs[n].certification != "" then
        assert LastCertifiedAt(rs, n);
        Some(rs[n].certification)
      else
        var r := LastCertification(rs[..n]);
        assert forall j :: 0 <= j < n ==> rs[..n][j] == rs[j];
        assert r.Some? ==> exists j :: LastCertifiedAt(rs, j) && rs[j].certification == r.value by {
          if r.Some? {
            var j :| LastCertifiedAt(rs[..n], j) && rs[..n][j].certification == r.value;
            assert LastCertifiedAt(rs, j);
          }
        }
        r
  }

  /** No US entry in `results` carries a non-empty certification. */
  ghost predicate NoUsCertification(results: seq<RegionResult>)
  {
    forall i, j :: 0 <= i < |results| && results[i].region == UsRegion && 0 <= j < |results[i].releaseDates|
      ==> results[i].releaseDates[j].certification == ""
  }

  /**
   * Result `i` is the one the rating comes from: it is a US result holding a
   * non-empty certification, and no US result before it holds one.
   */
  ghost predicate ChosenResult(results: seq<RegionResult>, i: int)
  {
    0 <= i < |results| && results[i].region == UsRegion &&
    LastCertification(results[i].releaseDates).Some? &&
    forall p :: 0 <= p < i && results[p].region == UsRegion ==> LastCertification(results[p].releaseDates).None?
  }

  /**
   * The outer loop of `get_rating_from_release_dates`: skip non-US results,
   * stop at the first US result that yields a certification.
   */
  function RatingFromResults(results: seq<RegionResult>): (r: Option<string>)
    ensures r.None? <==> NoUsCertification(results)
    ensures r.Some? ==> exists i :: ChosenResult(results, i) && LastCertification(results[i].releaseDates) == r
  {
    if results == [] then None
    else
      var rest := RatingFromResults(results[1..]);
      var first := if results[0].region == UsRegion then LastCertification(results[0].releaseDates) else None;
      if first.Some? then
        assert ChosenResult(results, 0);
        first
      else
        SkipFirstResult(results, rest);
        rest
  }

  /**
   * When the first result is not US, or is US without any certification,
   * the rating is the rating of the remaining results.
   */
  lemma SkipFirstResult(results: seq<RegionResult>, rest: Option<string>)
    requires results != []
    requires results[0].region == UsRegion ==> LastCertification(results[0].releaseDates).None?
    requires rest.None? <==> NoUsCertification(results[1..])
    requires rest.Some? ==> exists i :: ChosenResult(results[1..], i) && LastCertification(results[1..][i].releaseDates) == rest
    ensures rest.None? <==> NoUsCertification(results)
    ensures rest.Some? ==> exists i :: ChosenResult(results, i) && LastCertification(results[i].releaseDates) == rest
  {
    assert forall i :: 0 < i < |results| ==> results[i] == results[1..][i - 1];
    if rest.Some? {
      var i :| ChosenResult(results[1..], i) && LastCertification(results[1..][i].releaseDates) == rest;
      assert ChosenResult(results, i + 1);
    }
  }

  /** `get_rating_from_release_dates`. */
  function GetRatingFromReleaseDates(rd: ReleaseDates): Option<string>
  {
    RatingFromResults(rd.results)
  }

  /**
   * A returned rating is a non-empty certification of some US entry, and no
   * later entry of that US result carries a non-empty certification.
   */
  lemma RatingIsLastUsCertification(rd: ReleaseDates)
    requires GetRatingFromReleaseDates(rd).Some?
    ensures exists i, j ::
      0 <= i < |rd.results| && rd.results[i].region == UsRegion &&
      LastCertifiedAt(rd.results[i].releaseDates, j) &&
      rd.results[i].releaseDates[j].certification == GetRatingFromReleaseDates(rd).value
  {
    var i :| ChosenResult(rd.results, i) && LastCertification(rd.results[i].releaseDates) == GetRatingFromReleaseDates(rd);
    var j :| LastCertifiedAt(rd.results[i].releaseDates, j) &&
             rd.results[i].releaseDates[j].certification == GetRatingFromReleaseDates(rd).value;
  }

  /** Without any US result there is no rating. */
  lemma NoUsResultNoRating(rd: ReleaseDates)
    requires forall i :: 0 <= i < |rd.results| ==> rd.results[i].region != UsRegion
    ensures GetRatingFromReleaseDates(rd) == None
  {
  }

  /** The US results of a list, in their original order. */
  function UsOnly(results: seq<RegionResult>): (us: seq<RegionResult>)
    ensures |us| <= |results|
    ensures forall i :: 0 <= i < |us| ==> us[i].region == UsRegion
  {
    if results == [] then []
    else if results[0].region == UsRegion then [results[0]] + UsOnly(results[1..])
    else UsOnly(results[1..])
  }

  /** Removing every non-US result does not change the rating. */
  lemma {:induction false} RatingIgnoresOtherRegions(results: seq<RegionResult>)
    ensures RatingFromResults(results) == RatingFromResults(UsOnly(results))
  {
    if results != [] {
      RatingIgnoresOtherRegions(results[1..]);
      if results[0].region == UsRegion {
        assert ([results[0]] + UsOnly(results[1..]))[1..] == UsOnly(results[1..]);
      }
    }
  }

  /** Two result lists with the same US results, in the same order, give the same rating. */
  lemma RatingDependsOnlyOnUs(a: seq<RegionResult>, b: seq<RegionResult>)
    requires UsOnly(a) == UsOnly(b)
    ensures RatingFromResults(a) == RatingFromResults(b)
  {
    RatingIgnoresOtherRegions(a);
    RatingIgnoresOtherRegions(b);
  }

  // ---------------------------------------------------------------------
  // The detail response
  // ---------------------------------------------------------------------

  datatype TmdbGenre = TmdbGenre(id: int, name: string)

  /** The movie fields of a detail response, under the names they are stored by. */
  datatype TmdbMovie = TmdbMovie(
    tmdbId: int, title: string, releaseDate: string, runtime: int,
    imdbId: string, poster: string, adult: bool)

  /** An already-parsed detail response body. */
  datatype MovieDetail = MovieDetail(movie: TmdbMovie, releaseDates: ReleaseDates, genres: seq<TmdbGenre>)

  datatype MovieData = MovieData(movie: TmdbMovie, rating: Option<string>, genres: seq<string>)

  /** The comprehension over the response's genre records. */
  function GenreNames(genres: seq<TmdbGenre>): (names: seq<string>)
    ensures |names| == |genres|
    ensures forall i :: 0 <= i < |genres| ==> names[i] == genres[i].name
  {
    if genres == [] then [] else [genres[0].name] + GenreNames(genres[1..])
  }

  /**
   * `get_movie_data` after the request has returned: classify the status,
   * then take the movie, its rating and its genre names from the body.
   */
  function GetMovieData(status: int, body: MovieDetail): (r: Result<MovieData>)
    ensures r.Err? <==> !IsSuccess(status)
    ensures r.Err? ==> RespErrorHandling(status) == Some(r.error)
    ensures r.Ok? ==> r.value.movie == body.movie
    ensures r.Ok? ==> r.value.rating == GetRatingFromReleaseDates(body.releaseDates)
    ensures r.Ok? ==> |r.value.genres| == |body.genres| &&
                      forall i :: 0 <= i < |body.genres| ==> r.value.genres[i] == body.genres[i].name
  {
    match RespErrorHandling(status)
    case Some(e) => Err(e)
    case None => Ok(MovieData(body.movie, GetRatingFromReleaseDates(body.releaseDates), GenreNames(body.genres)))
  }
}
