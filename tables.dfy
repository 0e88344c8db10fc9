/**
 * The relational schema: movie, genre and user rows, the request payloads
 * that create and update movies, the constraints the database enforces when
 * a transaction commits, and the server-assigned timestamps.
 *
 * The genre-movie link table is represented by each movie's ordered genre
 * list: a link row is the pair (genre id, movie id), and the table's
 * composite primary key is `LinkKeysUnique`.
 */
module Tables {
  import opened Outcomes

  /** `year > 1878`, both as a column check and as a field validator. */
  predicate ValidYear(year: int) { year > 1878 }

  datatype Genre = Genre(id: nat, name: string)

  datatype GenreMovieLink = GenreMovieLink(genreId: nat, movieId: nat)

  /**
   * A movie row together with its genres relationship. `createdAt` and
   * `updatedAt` say whether the server has assigned those timestamps.
   */
  datatype Movie = Movie(
    id: nat, title: string, year: int, runtime: Option<int>,
    url: Option<string>, img: Option<string>, rating: Option<string>, nsfw: bool,
    createdAt: bool, updatedAt: bool, genres: seq<Genre>)

  /** The create payload; optional fields take their declared defaults. */
  datatype MovieCreate = MovieCreate(
    title: string, year: int, runtime: int,
    url: Option<string> := None, img: Option<string> := None, rating: Option<string> := None,
    nsfw: bool := false, genres: seq<string> := [])

  /** The partial-update payload: every field is optional and defaults to None. */
  datatype MovieUpdate = MovieUpdate(
    title: Option<string> := None, year: Option<int> := None, runtime: Option<int> := None,
    url: Option<string> := None, img: Option<string> := None, rating: Option<string> := None,
    nsfw: Option<bool> := None, genres: Option<seq<string>> := None)

  /** A registered user; `password` holds what registration stored (a hash). */
  datatype User = User(email: string, username: string, password: string)

  datatype UserCreate = UserCreate(email: string, username: string, password: string)

  /** Everything the database holds, each table in row order. */
  datatype Db = Db(movies: seq<Movie>, genres: seq<Genre>, users: seq<User>)

  // ---------------------------------------------------------------------
  // Constraints checked at commit
  // ---------------------------------------------------------------------

  predicate MovieIdsUnique(ms: seq<Movie>)
  {
    forall i, j :: 0 <= i < j < |ms| ==> ms[i].id != ms[j].id
  }

  /** The `_year_title_uc` unique constraint. */
  predicate YearTitleUnique(ms: seq<Movie>)
  {
    forall i, j :: 0 <= i < j < |ms| ==> ms[i].year != ms[j].year || ms[i].title != ms[j].title
  }

  predicate GenreIdsDistinct(gs: seq<Genre>)
  {
    forall i, j :: 0 <= i < j < |gs| ==> gs[i].id != gs[j].id
  }

  /** Column constraints of one movie row: the year check, a non-null runtime, no repeated link. */
  predicate RowValid(m: Movie)
  {
    ValidYear(m.year) && m.runtime.Some? && GenreIdsDistinct(m.genres)
  }

  predicate UsersUnique(us: seq<User>)
  {
    forall i, j :: 0 <= i < j < |us| ==> us[i].email != us[j].email && us[i].username != us[j].username
  }

  /** What a commit checks: a state violating any of these is rejected. */
  predicate Constraints(db: Db)
  {
    MovieIdsUnique(db.movies) && YearTitleUnique(db.movies) &&
    (forall i :: 0 <= i < |db.movies| ==> RowValid(db.movies[i])) &&
    GenreIdsDistinct(db.genres) && UsersUnique(db.users)
  }

  /** A committed state: it satisfies the constraints and every row was stamped on insert. */
  predicate Stored(db: Db)
  {
    Constraints(db) && forall i :: 0 <= i < |db.movies| ==> db.movies[i].createdAt
  }

  /** Does some movie other than the one with id `id` already have this (year, title)? */
  predicate YearTitleTaken(ms: seq<Movie>, year: int, title: string, id: int)
  {
    exists i :: 0 <= i < |ms| && ms[i].id != id && ms[i].year == year && ms[i].title == title
  }

  /** Does some stored movie already have this (year, title)? */
  predicate YearTitleExists(ms: seq<Movie>, year: int, title: string)
  {
    exists i :: 0 <= i < |ms| && ms[i].year == year && ms[i].title == title
  }

  /** A stored row never clashes with itself: its own (year, title) is taken by no other row. */
  lemma OwnYearTitleFree(ms: seq<Movie>, k: nat)
    requires MovieIdsUnique(ms) && YearTitleUnique(ms) && k < |ms|
    ensures !YearTitleTaken(ms, ms[k].year, ms[k].title, ms[k].id)
  {
  }

  /** Inserting a row with a fresh id keeps the constraints exactly when the row is valid and its (year, title) is free. */
  lemma ConstraintsInsert(ms: seq<Movie>, gs: seq<Genre>, us: seq<User>, m: Movie)
    requires Constraints(Db(ms, gs, us))
    requires forall i :: 0 <= i < |ms| ==> ms[i].id != m.id
    ensures Constraints(Db(ms + [m], gs, us)) <==> RowValid(m) && !YearTitleExists(ms, m.year, m.title)
  {
    var ms' := ms + [m];
    assert forall i :: 0 <= i < |ms| ==> ms'[i] == ms[i];
    assert ms'[|ms|] == m;
    if YearTitleExists(ms, m.year, m.title) {
      var i :| 0 <= i < |ms| && ms[i].year == m.year && ms[i].title == m.title;
      assert !YearTitleUnique(ms');
    }
  }

  /** Replacing row `k` by a row with the same id keeps the constraints exactly when the row is valid and no other row has its (year, title). */
  lemma ConstraintsReplace(ms: seq<Movie>, gs: seq<Genre>, us: seq<User>, k: int, m: Movie)
    requires Constraints(Db(ms, gs, us)) && 0 <= k < |ms| && m.id == ms[k].id
    ensures Constraints(Db(ms[k := m], gs, us)) <==> RowValid(m) && !YearTitleTaken(ms, m.year, m.title, m.id)
  {
    var ms' := ms[k := m];
    if YearTitleTaken(ms, m.year, m.title, m.id) {
      var i :| 0 <= i < |ms| && ms[i].id != m.id && ms[i].year == m.year && ms[i].title == m.title;
      assert i != k && ms'[i] == ms[i] && ms'[k] == m;
      if i < k {
        assert ms'[i].year == ms'[k].year && ms'[i].title == ms'[k].title;
      } else {
        assert ms'[k].year == ms'[i].year && ms'[k].title == ms'[i].title;
      }
    } else if RowValid(m) {
      forall i, j | 0 <= i < j < |ms'|
        ensures ms'[i].id != ms'[j].id && (ms'[i].year != ms'[j].year || ms'[i].title != ms'[j].title)
      {
        if i == k {
          assert ms[j].id != ms[k].id && ms'[j] == ms[j];
          assert !(ms[j].id != m.id && ms[j].year == m.year && ms[j].title == m.title);
        } else if j == k {
          assert ms[i].id != ms[k].id && ms'[i] == ms[i];
          assert !(ms[i].id != m.id && ms[i].year == m.year && ms[i].title == m.title);
        } else {
          assert ms'[i] == ms[i] && ms'[j] == ms[j];
        }
      }
      assert MovieIdsUnique(ms') && YearTitleUnique(ms');
      assert forall i :: 0 <= i < |ms'| ==> RowValid(ms'[i]) by {
        forall i | 0 <= i < |ms'| ensures RowValid(ms'[i]) {
          if i != k { assert ms'[i] == ms[i]; }
        }
      }
      assert Constraints(Db(ms', gs, us));
    } else {
      assert ms'[k] == m;
    }
  }

  /** Deleting a row keeps the constraints. */
  lemma ConstraintsDelete(ms: seq<Movie>, gs: seq<Genre>, us: seq<User>, k: int)
    requires Constraints(Db(ms, gs, us)) && 0 <= k < |ms|
    ensures Constraints(Db(ms[..k] + ms[k + 1..], gs, us))
  {
    var ms' := ms[..k] + ms[k + 1..];
    assert forall i :: 0 <= i < |ms'| ==> ms'[i] == ms[if i < k then i else i + 1];
  }

  // ---------------------------------------------------------------------
  // The link table's composite key
  // ---------------------------------------------------------------------

  function LinkAt(ms: seq<Movie>, i: int, p: int): GenreMovieLink
    requires 0 <= i < |ms| && 0 <= p < |ms[i].genres|
  {
    GenreMovieLink(ms[i].genres[p].id, ms[i].id)
  }

  /** No two link rows share the primary key (genre id, movie id). */
  ghost predicate LinkKeysUnique(ms: seq<Movie>)
  {
    forall i, p, j, q ::
      (0 <= i < |ms| && 0 <= p < |ms[i].genres| && 0 <= j < |ms| && 0 <= q < |ms[j].genres| &&
       (i != j || p != q)) ==> LinkAt(ms, i, p) != LinkAt(ms, j, q)
  }

  /**
   * With unique movie ids, the composite link key is unique exactly when no
   * movie lists the same genre twice, which is what `RowValid` checks.
   */
  lemma LinkKeysUniqueIffRowsDistinct(ms: seq<Movie>)
    requires MovieIdsUnique(ms)
    ensures LinkKeysUnique(ms) <==> forall i :: 0 <= i < |ms| ==> GenreIdsDistinct(ms[i].genres)
  {
    if LinkKeysUnique(ms) {
      forall i, p, q | 0 <= i < |ms| && 0 <= p < q < |ms[i].genres|
        ensures ms[i].genres[p].id != ms[i].genres[q].id
      {
        assert LinkAt(ms, i, p) != LinkAt(ms, i, q);
      }
    }
    if forall i :: 0 <= i < |ms| ==> GenreIdsDistinct(ms[i].genres) {
      forall i, p, j, q |
        0 <= i < |ms| && 0 <= p < |ms[i].genres| && 0 <= j < |ms| && 0 <= q < |ms[j].genres| && (i != j || p != q)
        ensures LinkAt(ms, i, p) != LinkAt(ms, j, q)
      {
        if i != j {
          assert ms[i].id != ms[j].id by {
            if i < j { assert ms[i].id != ms[j].id; } else { assert ms[j].id != ms[i].id; }
          }
        } else if p < q {
          assert ms[i].genres[p].id != ms[i].genres[q].id;
        } else {
          assert ms[i].genres[q].id != ms[i].genres[p].id;
        }
      }
    }
  }

  // ---------------------------------------------------------------------
  // Row ids and lookups
  // ---------------------------------------------------------------------

  /**
   * The id SQLite gives an inserted row: one more than the largest id in
   * the table, or 1 when the table is empty. Ids of deleted rows can come back.
   */
  function NextRowId(ids: seq<nat>): (r: nat)
    ensures r >= 1
    ensures forall i :: 0 <= i < |ids| ==> ids[i] < r
    ensures ids == [] ==> r == 1
    ensures ids != [] ==> exists i :: 0 <= i < |ids| && r == ids[i] + 1
  {
    if ids == [] then 1
    else
      var n := |ids| - 1;
      var prev := NextRowId(ids[..n]);
      assert forall i :: 0 <= i < n ==> ids[..n][i] == ids[i];
      if prev <= ids[n] + 1 then
        ids[n] + 1
      else
        assert ids[..n] != [];
        prev
  }

  function MovieIds(ms: seq<Movie>): (ids: seq<nat>)
  {
    seq(|ms|, i requires 0 <= i < |ms| => ms[i].id)
  }

  function GenreIds(gs: seq<Genre>): (ids: seq<nat>)
  {
    seq(|gs|, i requires 0 <= i < |gs| => gs[i].id)
  }

  /** The position of the movie whose primary key is `id` (the first, should ids repeat). */
  function FindMovie(ms: seq<Movie>, id: int): (r: Option<nat>)
    ensures r.None? <==> forall i :: 0 <= i < |ms| ==> ms[i].id != id
    ensures r.Some? ==> r.value < |ms| && ms[r.value].id == id &&
                        forall i :: 0 <= i < r.value ==> ms[i].id != id
  {
    if ms == [] then None
    else if ms[0].id == id then Some(0)
    else
      var rest := FindMovie(ms[1..], id);
      assert forall i :: 1 <= i < |ms| ==> ms[i] == ms[1..][i - 1];
      match rest
      case None => None
      case Some(k) => Some(k + 1)
  }

  /** With unique ids, a row is found exactly at its own position. */
  lemma FindMovieAt(ms: seq<Movie>, k: int)
    requires MovieIdsUnique(ms) && 0 <= k < |ms|
    ensures FindMovie(ms, ms[k].id) == Some(k)
  {
  }

  /** The first genre row with this exact name, as `select ... filter_by(name=...).first()` returns it. */
  function FirstGenreNamed(gs: seq<Genre>, name: string): (r: Option<Genre>)
    ensures r.None? <==> forall i :: 0 <= i < |gs| ==> gs[i].name != name
    ensures r.Some? ==> exists k :: 0 <= k < |gs| && gs[k] == r.value && r.value.name == name &&
                                    forall i :: 0 <= i < k ==> gs[i].name != name
  {
    if gs == [] then None
    else if gs[0].name == name then Some(gs[0])
    else
      var rest := FirstGenreNamed(gs[1..], name);
      assert forall i :: 1 <= i < |gs| ==> gs[i] == gs[1..][i - 1];
      assert rest.Some? ==> exists k :: 0 <= k < |gs| && gs[k] == rest.value &&
                                        forall i :: 0 <= i < k ==> gs[i].name != name by {
        if rest.Some? {
          var k :| 0 <= k < |gs[1..]| && gs[1..][k] == rest.value && forall i :: 0 <= i < k ==> gs[1..][i].name != name;
          assert gs[k + 1] == rest.value;
        }
      }
      rest
  }

  /** Appending a genre under a name not yet present makes it the one a lookup finds; other lookups do not change. */
  lemma {:induction false} FirstGenreNamedAppend(gs: seq<Genre>, g: Genre, name: string)
    requires FirstGenreNamed(gs, g.name).None?
    ensures FirstGenreNamed(gs + [g], name) == if name == g.name then Some(g) else FirstGenreNamed(gs, name)
  {
    if gs != [] {
      assert (gs + [g])[1..] == gs[1..] + [g];
      if gs[0].name != name {
        FirstGenreNamedAppend(gs[1..], g, name);
      }
    }
  }

  /** Every name `before` finds, `after` still finds at the same row. */
  ghost predicate LookupsKept(before: seq<Genre>, after: seq<Genre>)
  {
    forall n :: FirstGenreNamed(before, n).Some? ==> FirstGenreNamed(after, n) == FirstGenreNamed(before, n)
  }

  lemma LookupsKeptTrans(a: seq<Genre>, b: seq<Genre>, c: seq<Genre>)
    requires LookupsKept(a, b) && LookupsKept(b, c)
    ensures LookupsKept(a, c)
  {
  }

  /** Adding a genre under a name the table lacks: the name now finds it, and every earlier lookup is kept. */
  lemma AppendNewGenre(gs: seq<Genre>, g: Genre)
    requires FirstGenreNamed(gs, g.name).None?
    ensures FirstGenreNamed(gs + [g], g.name) == Some(g) && LookupsKept(gs, gs + [g])
    ensures NamesUnique(gs) ==> NamesUnique(gs + [g])
  {
    forall n | FirstGenreNamed(gs, n).Some?
      ensures FirstGenreNamed(gs + [g], n) == FirstGenreNamed(gs, n)
    {
      FirstGenreNamedAppend(gs, g, n);
    }
    FirstGenreNamedAppend(gs, g, g.name);
  }

  /** A genre with the next id keeps the ids distinct. */
  lemma AppendNextId(gs: seq<Genre>, name: string)
    requires GenreIdsDistinct(gs)
    ensures GenreIdsDistinct(gs + [Genre(NextRowId(GenreIds(gs)), name)])
  {
    assert forall i :: 0 <= i < |gs| ==> GenreIds(gs)[i] == gs[i].id;
  }

  /** `gs[j]` is the row a lookup of `names[j]` finds in `table`, for every `j` below `|gs|`. */
  ghost predicate ResolvedPrefix(table: seq<Genre>, names: seq<string>, gs: seq<Genre>)
  {
    |gs| <= |names| && forall j :: 0 <= j < |gs| ==> FirstGenreNamed(table, names[j]) == Some(gs[j])
  }

  /** Every name is resolved: `gs[j]` is the row a lookup of `names[j]` finds in `table`. */
  ghost predicate ResolvedIn(table: seq<Genre>, names: seq<string>, gs: seq<Genre>)
  {
    |gs| == |names| && ResolvedPrefix(table, names, gs)
  }

  /** Resolving the next name against a table that keeps the earlier lookups extends the resolution. */
  lemma ResolvedStep(before: seq<Genre>, after: seq<Genre>, names: seq<string>, gs: seq<Genre>, g: Genre)
    requires ResolvedPrefix(before, names, gs) && |gs| < |names| && LookupsKept(before, after)
    requires FirstGenreNamed(after, names[|gs|]) == Some(g)
    ensures ResolvedPrefix(after, names, gs + [g])
  {
    assert forall j :: 0 <= j < |gs| ==> (gs + [g])[j] == gs[j];
    forall j | 0 <= j < |gs|
      ensures FirstGenreNamed(after, names[j]) == Some(gs[j])
    {
      assert FirstGenreNamed(before, names[j]).Some?;
    }
  }

  /** Resolved genres carry the names they were resolved from. */
  lemma ResolvedNames(table: seq<Genre>, names: seq<string>, gs: seq<Genre>)
    requires ResolvedIn(table, names, gs)
    ensures GenreNamesAre(gs, names)
  {
    forall j | 0 <= j < |names|
      ensures gs[j].name == names[j]
    {
      assert FirstGenreNamed(table, names[j]) == Some(gs[j]);
    }
  }

  /** The genres carry exactly these names, in this order. */
  predicate GenreNamesAre(gs: seq<Genre>, names: seq<string>)
  {
    |gs| == |names| && forall i :: 0 <= i < |names| ==> gs[i].name == names[i]
  }

  predicate Distinct(names: seq<string>)
  {
    forall i, j :: 0 <= i < j < |names| ==> names[i] != names[j]
  }

  /**
   * Genres resolved name by name against a table with unique ids have
   * pairwise distinct ids exactly when the names are pairwise distinct.
   */
  lemma ResolvedIdsDistinct(table: seq<Genre>, names: seq<string>, gs: seq<Genre>)
    requires GenreIdsDistinct(table) && ResolvedIn(table, names, gs)
    ensures GenreIdsDistinct(gs) <==> Distinct(names)
  {
    if Distinct(names) {
      forall i, j | 0 <= i < j < |gs| ensures gs[i].id != gs[j].id {
        var p :| 0 <= p < |table| && table[p] == gs[i] && gs[i].name == names[i];
        var q :| 0 <= q < |table| && table[q] == gs[j] && gs[j].name == names[j];
        assert p != q;
        if p < q { assert table[p].id != table[q].id; } else { assert table[q].id != table[p].id; }
      }
    } else {
      var i, j :| 0 <= i < j < |names| && names[i] == names[j];
      assert gs[i] == gs[j];
    }
  }

  predicate NamesUnique(gs: seq<Genre>)
  {
    forall i, j :: 0 <= i < j < |gs| ==> gs[i].name != gs[j].name
  }

  // ---------------------------------------------------------------------
  // The genre loop and the link rows it leaves
  // ---------------------------------------------------------------------

  /** What the genre loop leaves behind: the genre table, and the rows it collected in order. */
  datatype Resolution = Resolution(table: seq<Genre>, rows: seq<Genre>)

  /**
   * The genre loop run from `table`: each name in turn finds its first row,
   * or, when the table has none, gets a new row with the next id, which
   * later names then find.
   */
  function ResolveAll(table: seq<Genre>, names: seq<string>): Resolution
  {
    if names == [] then Resolution(table, [])
    else
      var prev := ResolveAll(table, names[..|names| - 1]);
      var name := names[|names| - 1];
      match FirstGenreNamed(prev.table, name)
      case Some(g) => Resolution(prev.table, prev.rows + [g])
      case None =>
        var g := Genre(NextRowId(GenreIds(prev.table)), name);
        Resolution(prev.table + [g], prev.rows + [g])
  }

  /** One more name: the loop so far, then that name's lookup or new row. */
  lemma ResolveAllSnoc(table: seq<Genre>, names: seq<string>, i: nat)
    requires i < |names|
    ensures var prev := ResolveAll(table, names[..i]);
            FirstGenreNamed(prev.table, names[i]).Some? ==>
              ResolveAll(table, names[..i + 1]) ==
              Resolution(prev.table, prev.rows + [FirstGenreNamed(prev.table, names[i]).value])
    ensures var prev := ResolveAll(table, names[..i]);
            var g := Genre(NextRowId(GenreIds(prev.table)), names[i]);
            FirstGenreNamed(prev.table, names[i]).None? ==>
              ResolveAll(table, names[..i + 1]) == Resolution(prev.table + [g], prev.rows + [g])
  {
    assert names[..i + 1][..i] == names[..i];
  }

  /**
   * `after` is `before` with rows appended only for names of `names` that
   * `before` has no row for, and with at most one appended row per name.
   */
  ghost predicate AppendsMissing(before: seq<Genre>, after: seq<Genre>, names: seq<string>)
  {
    before <= after &&
    (forall j :: |before| <= j < |after| ==> after[j].name in names && FirstGenreNamed(before, after[j].name).None?) &&
    (forall i, j :: |before| <= i < j < |after| ==> after[i].name != after[j].name)
  }

  /** A resolution of all but the last name is a prefix resolution of all of them. */
  lemma ResolvedGrow(table: seq<Genre>, names: seq<string>, gs: seq<Genre>)
    requires names != [] && ResolvedIn(table, names[..|names| - 1], gs)
    ensures |gs| == |names| - 1 && ResolvedPrefix(table, names, gs)
  {
    assert forall j :: 0 <= j < |gs| ==> names[..|names| - 1][j] == names[j];
  }

  /** One more name keeps the shape of the resolution when the name is found. */
  lemma ResolveFoundStep(table: seq<Genre>, names: seq<string>, prev: Resolution, g: Genre)
    requires names != [] && FirstGenreNamed(prev.table, names[|names| - 1]) == Some(g)
    requires AppendsMissing(table, prev.table, names[..|names| - 1])
    requires ResolvedIn(prev.table, names[..|names| - 1], prev.rows)
    ensures AppendsMissing(table, prev.table, names)
    ensures ResolvedIn(prev.table, names, prev.rows + [g])
  {
    var init, gs := names[..|names| - 1], prev.rows + [g];
    ResolvedGrow(prev.table, names, prev.rows);
    assert forall j :: 0 <= j < |prev.rows| ==> gs[j] == prev.rows[j];
    assert gs[|prev.rows|] == g;
    assert forall s :: s in init ==> s in names;
  }

  /** Appending a row for a name neither table has keeps the appended rows missing from `table` and one per name. */
  lemma AppendsMissingSnoc(table: seq<Genre>, before: seq<Genre>, names: seq<string>, g: Genre)
    requires names != [] && g.name == names[|names| - 1]
    requires AppendsMissing(table, before, names[..|names| - 1]) && LookupsKept(table, before)
    requires FirstGenreNamed(before, g.name).None?
    ensures AppendsMissing(table, before + [g], names)
  {
    var init, after := names[..|names| - 1], before + [g];
    assert FirstGenreNamed(table, g.name).None?;
    forall j | |table| <= j < |after|
      ensures after[j].name in names && FirstGenreNamed(table, after[j].name).None?
    {
      if j < |before| {
        assert after[j] == before[j] && after[j].name in init;
      }
    }
    forall i, j | |table| <= i < j < |after|
      ensures after[i].name != after[j].name
    {
      assert after[i] == before[i];
      if j < |before| {
        assert after[j] == before[j];
      }
    }
  }

  /** One more name keeps the shape of the resolution when a row is added for it. */
  lemma ResolveAddedStep(table: seq<Genre>, names: seq<string>, prev: Resolution)
    requires names != [] && FirstGenreNamed(prev.table, names[|names| - 1]).None?
    requires AppendsMissing(table, prev.table, names[..|names| - 1]) && LookupsKept(table, prev.table)
    requires ResolvedIn(prev.table, names[..|names| - 1], prev.rows)
    ensures var g := Genre(NextRowId(GenreIds(prev.table)), names[|names| - 1]);
            AppendsMissing(table, prev.table + [g], names) && LookupsKept(table, prev.table + [g]) &&
            ResolvedIn(prev.table + [g], names, prev.rows + [g]) &&
            (GenreIdsDistinct(prev.table) ==> GenreIdsDistinct(prev.table + [g])) &&
            (NamesUnique(prev.table) ==> NamesUnique(prev.table + [g]))
  {
    var name := names[|names| - 1];
    var g := Genre(NextRowId(GenreIds(prev.table)), name);
    AppendNewGenre(prev.table, g);
    if GenreIdsDistinct(prev.table) {
      AppendNextId(prev.table, name);
    }
    LookupsKeptTrans(table, prev.table, prev.table + [g]);
    ResolvedGrow(prev.table, names, prev.rows);
    ResolvedStep(prev.table, prev.table + [g], names, prev.rows, g);
    AppendsMissingSnoc(table, prev.table, names, g);
  }

  /**
   * The genre loop only appends, and only rows for names the table lacked,
   * one per name; each name resolves to the row a lookup of it finds in the
   * final table; earlier lookups and distinct ids are kept.
   */
  lemma {:induction false} ResolveAllShape(table: seq<Genre>, names: seq<string>)
    ensures AppendsMissing(table, ResolveAll(table, names).table, names)
    ensures ResolvedIn(ResolveAll(table, names).table, names, ResolveAll(table, names).rows)
    ensures LookupsKept(table, ResolveAll(table, names).table)
    ensures GenreIdsDistinct(table) ==> GenreIdsDistinct(ResolveAll(table, names).table)
    ensures NamesUnique(table) ==> NamesUnique(ResolveAll(table, names).table)
  {
    if names != [] {
      var init, name := names[..|names| - 1], names[|names| - 1];
      ResolveAllShape(table, init);
      var prev := ResolveAll(table, init);
      match FirstGenreNamed(prev.table, name)
      case Some(g) =>
        ResolveFoundStep(table, names, prev, g);
      case None =>
        ResolveAddedStep(table, names, prev);
    }
  }

  /**
   * The rows the genre loop collects carry the listed names in order, and
   * over a table with distinct ids they are distinct exactly when the names
   * are.
   */
  lemma ResolveAllNamesIds(table: seq<Genre>, names: seq<string>)
    ensures GenreNamesAre(ResolveAll(table, names).rows, names)
    ensures GenreIdsDistinct(table) ==>
              GenreIdsDistinct(ResolveAll(table, names).table) &&
              (GenreIdsDistinct(ResolveAll(table, names).rows) <==> Distinct(names))
  {
    var res := ResolveAll(table, names);
    ResolveAllShape(table, names);
    ResolvedNames(res.table, names, res.rows);
    if GenreIdsDistinct(table) {
      ResolvedIdsDistinct(res.table, names, res.rows);
    }
  }

  /**
   * The link rows a flush leaves for a movie linked to `linked` whose genres
   * are set to `gs`. The ORM compares the two collections by primary key: a
   * genre already linked keeps its one link row however often `gs` lists
   * it, and every listing of any other genre inserts a link row. Genres
   * linked before and not listed lose their link.
   */
  function LinkRows(linked: seq<Genre>, gs: seq<Genre>): seq<Genre>
  {
    if gs == [] then []
    else
      var prev := LinkRows(linked, gs[..|gs| - 1]);
      var g := gs[|gs| - 1];
      if g.id in GenreIds(linked) && g.id in GenreIds(prev) then prev else prev + [g]
  }

  /** Some genre the movie was not linked to is listed twice, so its link row would be inserted twice. */
  predicate NewLinkRepeated(linked: seq<Genre>, gs: seq<Genre>)
  {
    exists i, j :: 0 <= i < j < |gs| && gs[i].id == gs[j].id && gs[i].id !in GenreIds(linked)
  }

  lemma InGenreIds(gs: seq<Genre>, x: nat)
    ensures x in GenreIds(gs) <==> exists i :: 0 <= i < |gs| && gs[i].id == x
  {
    if x in GenreIds(gs) {
      var i :| 0 <= i < |gs| && GenreIds(gs)[i] == x;
    }
    if exists i :: 0 <= i < |gs| && gs[i].id == x {
      var i :| 0 <= i < |gs| && gs[i].id == x;
      assert GenreIds(gs)[i] == x;
    }
  }

  lemma GenreIdsSnoc(gs: seq<Genre>, g: Genre)
    ensures GenreIds(gs + [g]) == GenreIds(gs) + [g.id]
  {
  }

  lemma DistinctSnoc(gs: seq<Genre>, g: Genre)
    ensures GenreIdsDistinct(gs + [g]) <==> GenreIdsDistinct(gs) && g.id !in GenreIds(gs)
  {
    var r := gs + [g];
    InGenreIds(gs, g.id);
    assert forall i :: 0 <= i < |gs| ==> r[i] == gs[i];
    forall i | 0 <= i < |gs|
      ensures GenreIdsDistinct(r) ==> gs[i].id != g.id
    {
      assert r[|gs|] == g;
    }
  }

  lemma NewLinkRepeatedSnoc(linked: seq<Genre>, gs: seq<Genre>, g: Genre)
    ensures NewLinkRepeated(linked, gs + [g]) <==>
            NewLinkRepeated(linked, gs) || (g.id !in GenreIds(linked) && g.id in GenreIds(gs))
  {
    var r := gs + [g];
    InGenreIds(gs, g.id);
    assert forall i :: 0 <= i < |gs| ==> r[i] == gs[i];
    if NewLinkRepeated(linked, r) && !NewLinkRepeated(linked, gs) {
      var i, j :| 0 <= i < j < |r| && r[i].id == r[j].id && r[i].id !in GenreIds(linked);
      assert j == |gs|;
    }
    if g.id !in GenreIds(linked) && g.id in GenreIds(gs) {
      var i :| 0 <= i < |gs| && gs[i].id == g.id;
      assert r[i].id == r[|gs|].id;
    }
  }

  /** The link rows link exactly the listed genres, and hold no row the list does not. */
  lemma {:induction false} LinkRowsListed(linked: seq<Genre>, gs: seq<Genre>)
    ensures forall x :: x in GenreIds(LinkRows(linked, gs)) <==> x in GenreIds(gs)
    ensures forall g :: g in LinkRows(linked, gs) ==> g in gs
  {
    if gs != [] {
      var init, g := gs[..|gs| - 1], gs[|gs| - 1];
      LinkRowsListed(linked, init);
      var prev := LinkRows(linked, init);
      assert gs == init + [g];
      GenreIdsSnoc(init, g);
      GenreIdsSnoc(prev, g);
    }
  }

  /** The link rows repeat a key exactly when a genre not linked before is listed twice. */
  lemma {:induction false} LinkRowsDistinct(linked: seq<Genre>, gs: seq<Genre>)
    ensures GenreIdsDistinct(LinkRows(linked, gs)) <==> !NewLinkRepeated(linked, gs)
  {
    if gs != [] {
      var init, g := gs[..|gs| - 1], gs[|gs| - 1];
      LinkRowsDistinct(linked, init);
      LinkRowsListed(linked, init);
      var prev := LinkRows(linked, init);
      assert gs == init + [g];
      NewLinkRepeatedSnoc(linked, init, g);
      if !(g.id in GenreIds(linked) && g.id in GenreIds(prev)) {
        DistinctSnoc(prev, g);
      }
    }
  }

  /** A list that repeats no genre is stored as given. */
  lemma {:induction false} LinkRowsNoRepeats(linked: seq<Genre>, gs: seq<Genre>)
    requires GenreIdsDistinct(gs)
    ensures LinkRows(linked, gs) == gs
  {
    if gs != [] {
      var init, g := gs[..|gs| - 1], gs[|gs| - 1];
      assert gs == init + [g];
      DistinctSnoc(init, g);
      LinkRowsNoRepeats(linked, init);
    }
  }

  // ---------------------------------------------------------------------
  // Partial updates
  // ---------------------------------------------------------------------

  /** One entry of `movie.dict(exclude_defaults=True)`: a field name with its value. */
  datatype Field =
    | Title(title: string) | Year(year: int) | Runtime(runtime: int) | Url(url: string)
    | Img(img: string) | Rating(rating: string) | Nsfw(nsfw: bool) | Genres(names: seq<string>)

  /** The entry for the `k`-th declared field of the update, if it differs from its default. */
  function FieldAt(u: MovieUpdate, k: nat): (fs: seq<Field>)
    requires k < 8
    ensures |fs| <= 1
  {
    match k
    case 0 => if u.title.Some? then [Title(u.title.value)] else []
    case 1 => if u.year.Some? then [Year(u.year.value)] else []
    case 2 => if u.runtime.Some? then [Runtime(u.runtime.value)] else []
    case 3 => if u.url.Some? then [Url(u.url.value)] else []
    case 4 => if u.img.Some? then [Img(u.img.value)] else []
    case 5 => if u.rating.Some? then [Rating(u.rating.value)] else []
    case 6 => if u.nsfw.Some? then [Nsfw(u.nsfw.value)] else []
    case 7 => if u.genres.Some? then [Genres(u.genres.value)] else []
  }

  /** The entries among the first `k` declared fields, in declaration order. */
  function FieldsUpTo(u: MovieUpdate, k: nat): seq<Field>
    requires k <= 8
  {
    if k == 0 then [] else FieldsUpTo(u, k - 1) + FieldAt(u, k - 1)
  }

  /** `movie.dict(exclude_defaults=True)`: every field that is not None, in declaration order. */
  function SuppliedFields(u: MovieUpdate): seq<Field>
  {
    FieldsUpTo(u, 8)
  }

  /**
   * `setattr` succeeds for every column, and for `genres` only with an empty
   * list: a name string cannot be put on the relationship.
   */
  predicate Settable(f: Field)
  {
    !f.Genres? || f.names == []
  }

  /**
   * `setattr(db_movie, key, value)`: a column takes the value; an empty
   * `genres` list empties the relationship, as any assignment of a list does.
   */
  function SetAttr(m: Movie, f: Field): Movie
    requires Settable(f)
  {
    match f
    case Title(s) => m.(title := s)
    case Year(y) => m.(year := y)
    case Runtime(n) => m.(runtime := Some(n))
    case Url(s) => m.(url := Some(s))
    case Img(s) => m.(img := Some(s))
    case Rating(s) => m.(rating := Some(s))
    case Nsfw(b) => m.(nsfw := b)
    case Genres(_) => m.(genres := [])
  }

  predicate ColumnFields(fs: seq<Field>)
  {
    forall i :: 0 <= i < |fs| ==> !fs[i].Genres?
  }

  predicate SettableFields(fs: seq<Field>)
  {
    forall i :: 0 <= i < |fs| ==> Settable(fs[i])
  }

  /** The row after the setattr loop has run over `fs` in order. */
  function ApplyFields(m: Movie, fs: seq<Field>): Movie
    requires SettableFields(fs)
  {
    if fs == [] then m else SetAttr(ApplyFields(m, fs[..|fs| - 1]), fs[|fs| - 1])
  }

  /**
   * The field-by-field merge a partial update means: a supplied field
   * replaces the column, every other column keeps its value.
   */
  function MergeUpdate(m: Movie, u: MovieUpdate): Movie
  {
    m.(title := if u.title.Some? then u.title.value else m.title,
       year := if u.year.Some? then u.year.value else m.year,
       runtime := if u.runtime.Some? then u.runtime else m.runtime,
       url := if u.url.Some? then u.url else m.url,
       img := if u.img.Some? then u.img else m.img,
       rating := if u.rating.Some? then u.rating else m.rating,
       nsfw := if u.nsfw.Some? then u.nsfw.value else m.nsfw)
  }

  /** The update restricted to its first `k` declared fields. */
  function Prefix(u: MovieUpdate, k: nat): MovieUpdate
  {
    MovieUpdate(
      if k > 0 then u.title else None, if k > 1 then u.year else None,
      if k > 2 then u.runtime else None, if k > 3 then u.url else None,
      if k > 4 then u.img else None, if k > 5 then u.rating else None,
      if k > 6 then u.nsfw else None, if k > 7 then u.genres else None)
  }

  /** One more declared field: either it is absent, or setting it moves the merge one field on. */
  lemma MergeStep(m: Movie, u: MovieUpdate, k: nat)
    requires k < 7
    ensures FieldAt(u, k) == [] ==> Prefix(u, k + 1) == Prefix(u, k)
    ensures FieldAt(u, k) != [] ==>
              !FieldAt(u, k)[0].Genres? &&
              SetAttr(MergeUpdate(m, Prefix(u, k)), FieldAt(u, k)[0]) == MergeUpdate(m, Prefix(u, k + 1))
  {
  }

  lemma ApplyFieldsSnoc(m: Movie, xs: seq<Field>, f: Field)
    requires SettableFields(xs) && Settable(f)
    ensures SettableFields(xs + [f])
    ensures ApplyFields(m, xs + [f]) == SetAttr(ApplyFields(m, xs), f)
  {
    assert (xs + [f])[..|xs|] == xs;
  }

  lemma {:induction false} ApplyFieldsUpTo(m: Movie, u: MovieUpdate, k: nat)
    requires k <= 7
    ensures ColumnFields(FieldsUpTo(u, k)) && SettableFields(FieldsUpTo(u, k))
    ensures ApplyFields(m, FieldsUpTo(u, k)) == MergeUpdate(m, Prefix(u, k))
  {
    if k == 0 {
      assert Prefix(u, 0) == MovieUpdate();
    } else {
      ApplyFieldsUpTo(m, u, k - 1);
      MergeStep(m, u, k - 1);
      var xs, ys := FieldsUpTo(u, k - 1), FieldAt(u, k - 1);
      assert FieldsUpTo(u, k) == xs + ys;
      if ys == [] {
        assert xs + ys == xs;
      } else {
        assert ys == [ys[0]];
        ApplyFieldsSnoc(m, xs, ys[0]);
      }
    }
  }

  /** No field is supplied exactly when the update is the all-defaults one. */
  lemma {:induction false} FieldsUpToEmpty(u: MovieUpdate, k: nat)
    requires k <= 8
    ensures FieldsUpTo(u, k) == [] <==> Prefix(u, k) == MovieUpdate()
  {
    if k > 0 {
      FieldsUpToEmpty(u, k - 1);
    }
  }

  /** An update supplies no field exactly when every field is left at its default None. */
  lemma SuppliedFieldsEmpty(u: MovieUpdate)
    ensures SuppliedFields(u) == [] <==> u == MovieUpdate()
  {
    FieldsUpToEmpty(u, 8);
    assert Prefix(u, 8) == u;
  }

  lemma {:induction false} ColumnFieldsUpTo(u: MovieUpdate, k: nat)
    requires k <= 7
    ensures ColumnFields(FieldsUpTo(u, k))
  {
    if k > 0 {
      ColumnFieldsUpTo(u, k - 1);
      assert FieldsUpTo(u, k) == FieldsUpTo(u, k - 1) + FieldAt(u, k - 1);
    }
  }

  /** The only supplied entry that is not a column is the genres list, and when present it comes last. */
  lemma SuppliedFieldsShape(u: MovieUpdate)
    ensures ColumnFields(SuppliedFields(u)) <==> u.genres.None?
    ensures SettableFields(SuppliedFields(u)) <==> u.genres.None? || u.genres.value == []
    ensures u.genres.Some? ==> SuppliedFields(u) == FieldsUpTo(u, 7) + [Genres(u.genres.value)]
  {
    ColumnFieldsUpTo(u, 7);
    if u.genres.Some? {
      var fs := SuppliedFields(u);
      assert fs == FieldsUpTo(u, 7) + [Genres(u.genres.value)];
      assert fs[|fs| - 1] == Genres(u.genres.value);
      assert forall i :: 0 <= i < |fs| - 1 ==> fs[i] == FieldsUpTo(u, 7)[i];
    } else {
      assert SuppliedFields(u) == FieldsUpTo(u, 7) + [];
    }
  }

  /**
   * The row after the setattr loop: the field-by-field merge of the
   * columns, with the genre relationship emptied when the update supplies a
   * `genres` list (which `setattr` accepts only when it is empty).
   */
  function MergeBody(m: Movie, u: MovieUpdate): Movie
  {
    MergeUpdate(m, u).(genres := if u.genres.Some? then [] else m.genres)
  }

  /**
   * Running the setattr loop over the supplied fields of an update whose
   * genres, if supplied, are empty is the field-by-field merge, with the
   * relationship emptied when genres are supplied.
   */
  lemma SetAttrsIsMerge(m: Movie, u: MovieUpdate)
    requires u.genres.None? || u.genres.value == []
    ensures SettableFields(SuppliedFields(u))
    ensures ApplyFields(m, SuppliedFields(u)) == MergeBody(m, u)
  {
    ApplyFieldsUpTo(m, u, 7);
    SuppliedFieldsShape(u);
    assert Prefix(u, 7) == u.(genres := None);
    assert MergeUpdate(m, Prefix(u, 7)) == MergeUpdate(m, u);
    if u.genres.Some? {
      ApplyFieldsSnoc(m, FieldsUpTo(u, 7), Genres([]));
    } else {
      assert SuppliedFields(u) == FieldsUpTo(u, 7);
    }
  }

  /** A merge never touches the id, the genres or the timestamps, and applying it twice changes nothing more. */
  lemma MergeUpdateKeeps(m: Movie, u: MovieUpdate)
    ensures MergeUpdate(m, u).id == m.id && MergeUpdate(m, u).genres == m.genres
    ensures MergeUpdate(m, u).createdAt == m.createdAt && MergeUpdate(m, u).updatedAt == m.updatedAt
    ensures MergeUpdate(MergeUpdate(m, u), u) == MergeUpdate(m, u)
    ensures SuppliedFields(u) == [] ==> MergeUpdate(m, u) == m
  {
    SuppliedFieldsEmpty(u);
  }

  // ---------------------------------------------------------------------
  // Server-assigned timestamps
  // ---------------------------------------------------------------------

  /** The columns an UPDATE statement would write. */
  predicate SameColumns(a: Movie, b: Movie)
  {
    a.title == b.title && a.year == b.year && a.runtime == b.runtime && a.url == b.url &&
    a.img == b.img && a.rating == b.rating && a.nsfw == b.nsfw
  }

  /**
   * A row as the database stores it after a commit: a new row gets
   * `created_at` from the server default and no `updated_at`; an existing
   * row keeps its `created_at` and gets `updated_at` when a column changed.
   */
  function StampRow(before: seq<Movie>, m: Movie): Movie
  {
    match FindMovie(before, m.id)
    case None => m.(createdAt := true, updatedAt := false)
    case Some(k) => m.(createdAt := before[k].createdAt, updatedAt := before[k].updatedAt || !SameColumns(before[k], m))
  }

  function Stamp(before: seq<Movie>, after: seq<Movie>): (r: seq<Movie>)
    ensures |r| == |after|
  {
    seq(|after|, i requires 0 <= i < |after| => StampRow(before, after[i]))
  }

  /** The committed state after a successful commit of `work` over `before`. */
  function Persist(before: Db, work: Db): Db
  {
    Db(Stamp(before.movies, work.movies), work.genres, work.users)
  }

  /** Stamping changes timestamps only, so the constraints survive it, and every row ends up created. */
  lemma PersistStored(before: Db, work: Db)
    requires Stored(before) && Constraints(work)
    ensures Stored(Persist(before, work))
  {
    var ms := Stamp(before.movies, work.movies);
    forall i | 0 <= i < |ms|
      ensures ms[i].id == work.movies[i].id && SameColumns(ms[i], work.movies[i])
      ensures ms[i].genres == work.movies[i].genres && ms[i].createdAt
    {
    }
  }

  /** Committing rows the store already holds, unchanged, writes nothing new. */
  lemma StampUnchanged(before: seq<Movie>, after: seq<Movie>)
    requires MovieIdsUnique(before)
    requires forall i :: 0 <= i < |after| ==> after[i] in before
    ensures Stamp(before, after) == after
  {
    forall i | 0 <= i < |after|
      ensures Stamp(before, after)[i] == after[i]
    {
      var k :| 0 <= k < |before| && before[k] == after[i];
      FindMovieAt(before, k);
    }
  }

  /** Committing one new row stamps it as created and never updated, and leaves the others alone. */
  lemma StampInsert(before: seq<Movie>, m: Movie)
    requires MovieIdsUnique(before)
    requires forall i :: 0 <= i < |before| ==> before[i].id != m.id
    ensures Stamp(before, before + [m]) == before + [m.(createdAt := true, updatedAt := false)]
  {
    StampUnchanged(before, before);
    assert forall i :: 0 <= i < |before| ==> Stamp(before, before + [m])[i] == Stamp(before, before)[i];
  }

  /** Committing a changed copy of row `k` stamps that row only. */
  lemma StampReplace(before: seq<Movie>, k: int, m: Movie)
    requires MovieIdsUnique(before) && 0 <= k < |before| && m.id == before[k].id
    ensures Stamp(before, before[k := m]) ==
            before[k := m.(createdAt := before[k].createdAt, updatedAt := before[k].updatedAt || !SameColumns(before[k], m))]
  {
    FindMovieAt(before, k);
    forall i | 0 <= i < |before| && i != k
      ensures Stamp(before, before[k := m])[i] == before[i]
    {
      FindMovieAt(before, i);
    }
  }
}
