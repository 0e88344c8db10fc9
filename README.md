# Movies from a hat: a verified model of the movie service core

This project models the core of a small movie-cataloguing web service. The
service has:

- create, read, update and delete routes for movies;
- genre tagging through a genre–movie link table;
- user registration and login;
- a client for a third-party movie-metadata provider, which turns upstream
  HTTP statuses into local errors and reads a US content rating out of
  nested release-date records.

## Modules

| module | file | source file | what it holds |
|---|---|---|---|
| `Outcomes` | `outcomes.dfy` | — | optional values and results; the failures a handler ends with |
| `Tmdb` | `tmdb.dfy` | `api/app/tmdb.py` | pure functions (see below) |
| `Tables` | `tables.dfy` | `api/app/tables.py` | the schema as datatypes, constraints, updates, timestamps (see below) |
| `DbHelpers` | `db_helpers.dfy` | `api/app/db_helpers.py` | the store classes and the shared helpers (see below) |
| `Movies` | `movies.dfy` | `api/app/movies.py` | the movie routes of the router revision |
| `Api` | `api.dfy` | `api/app/api.py` | the older single-file revision, which reuses the two loops from `Movies` |
| `Users` | `users.dfy` | `api/app/users.py` | the users router |

`Tmdb` holds these pure functions:

- the status classification;
- the rating walk;
- the genre-name extraction.

`Tables` holds:

- the schema as datatypes;
- the constraints a commit checks;
- the partial-update semantics;
- the server-assigned timestamps.

`DbHelpers` holds:

- the committed store, as the `Database` class;
- the request-scoped unit of work, as the `Session` class;
- `get_object_or_404`, `get_or_create` and `commit`;
- user lookup, `require_login` and `create_user`.

### How the store works

The database is a `Database` object whose `rows` field holds the movie,
genre and user tables. Each route opens a `Session` on a copy of those
rows. `get_or_create` flushes new genre rows into that copy, and later
lookups in the same request see them. `Commit` does one of two things:

- If the copy violates a constraint, it leaves `rows` untouched and answers
  422 "Database error occurred, check params.".
- Otherwise it stores the copy with timestamps stamped.

The constraints a commit checks are:

- `year > 1878`;
- a non-null runtime;
- unique ids;
- unique (year, title);
- no repeated (genre id, movie id) link key;
- unique user emails and usernames. The schema file `api/app/tables.py`
  declares no user table; it only notes that one is still to be written. The user record
  (email, username, password) and these two unique constraints are taken
  from the description of the service, since `db_helpers.py` and
  `users.py` use a `User` class that the schema does not define.

### Data model

The genre–movie link table is represented by each movie's ordered genre
list. A link row is (genre id, movie id). The link table's composite key is
unique exactly when no movie lists the same genre twice
(`Tables.LinkKeysUniqueIffRowsDistinct`). Deleting a movie therefore
removes its links too, as the ORM does for a many-to-many relationship.

Timestamps are flags:

- `createdAt` is set by the server default on insert.
- `updatedAt` is set by the on-update hook. An UPDATE is only issued when a
  column actually changed, so a change to genres alone does not set it.

New row ids follow SQLite: one more than the largest id in the table, or 1
for an empty table. Ids of deleted rows can therefore come back.

### Where the code and the description of the service disagree

The model follows the code in each case, with two exceptions (see
"Left out"):

- it runs the helpers that `api.py` calls without awaiting as if they ran
  to completion;
- the users table, which the schema file does not define, follows the
  description of the service.

The points on which the code and the description differ are these:

- **Year, not release date.** Movies here carry a `year` validated as
  `> 1878`, not a release date.
- **No unique genre name.** Genre names are not unique in the schema. Only
  `get_or_create` avoids duplicates within one session.
- **Every non-2xx upstream status is an error.** Outside 4xx, the HTTP client
  raises for every status that is not 2xx. So 1xx and 3xx upstream statuses
  also become 504, as 5xx ones do.
- **An empty update body still writes.** In `movies.py` an update whose body
  is present but empty is still committed. It changes no column, so
  `updated_at` keeps its value.
- **A non-empty `genres` list inside the update body fails.** A non-empty
  `genres` list inside the update body is passed to `setattr` as strings and
  fails the request as an unhandled error. An empty list is accepted: it
  empties the relationship, so the movie's links are cleared unless the
  separate `genres` parameter assigns a list afterwards. Only that parameter
  can link genres.
- **`MovieCreate.genres` is ignored on create.** The create route takes
  genres from its separate `genres` body list. The payload's own `genres`
  field is not copied onto the row.
- **Registration and login errors.** The user tests in the repository
  target a later authentication library, with different routes and error
  codes. The model follows `users.py`:
  - a clash on registration is 400 with the messages that file states;
  - login failures are invalid-credentials errors.
- **The rating is found in the first US result that has one.** The
  description says the rating is the last-listed US certification among all
  US entries. The code walks the results in order and stops at the first US
  result with any non-empty certification. Within that result it takes the
  last non-empty entry (`api/app/tmdb.py:95-102`). A later US result with a
  certification is never read.
- **The poster never reaches the row in `api.py`.** The poster URL is passed
  to `Movie` and `MovieUpdate` under a `poster` keyword. Neither declares
  that keyword, so the URL is dropped and the image column `img` stays
  unset.
- **Update errors depend on where the clash surfaces.** The changed row
  waits in the session while the genre loop runs. The first `get_or_create`
  query flushes it. If its (year, title) belongs to another row, that flush
  raises outside `commit`'s handler, and the request fails as an unhandled
  error instead of a 422. A list that repeats a genre the movie is already
  linked to inserts no extra link row, because the relationship compares by
  primary key, so that update succeeds. A list that repeats any other genre
  inserts its link twice, and the commit answers 422.

## Model

| member | source | states |
|---|---|---|
| Tmdb.RespErrorHandling | api/app/tmdb.py:55-78 | Returns normally exactly for a 2xx status. Any 4xx gives 400 "Bad search params". Any 5xx gives 504. Every failure is 400 or 504, and it is 400 exactly for a 4xx. |
| Tmdb.LastCertification | api/app/tmdb.py:99-102 | Walking one region's release dates backwards finds nothing exactly when every certification is empty. Otherwise it returns the certification of the last entry that has a non-empty one. |
| Tmdb.RatingFromResults | api/app/tmdb.py:95-102 | No rating exactly when no US entry carries a certification. Otherwise the rating comes from the first US result that yields one, and every earlier US result yields none. |
| Tmdb.RatingIsLastUsCertification | api/app/tmdb.py:99-102 | A returned rating is the non-empty certification of some entry of a US result, and no later entry of that result has a non-empty certification. |
| Tmdb.NoUsResultNoRating | api/app/tmdb.py:95-97 | Without any US result the rating is None. |
| Tmdb.RatingIgnoresOtherRegions | api/app/tmdb.py:95-97 | Removing every non-US result leaves the rating unchanged. |
| Tmdb.RatingDependsOnlyOnUs | api/app/tmdb.py:95-97 | Two result lists with the same US results in the same order give the same rating, whatever else they contain. |
| Tmdb.GenreNames | api/app/tmdb.py:122-123 | The extracted names keep the length and order of the upstream genre list. |
| Tmdb.GetMovieData | api/app/tmdb.py:105-125 | Fails exactly for a non-2xx status, with the error the status classification gives. Otherwise returns the body's movie, the extracted rating, and the genre names in order. |
| Tables.NextRowId | api/app/tables.py:38-41 | A new id exceeds every id in the table. It is 1 for an empty table and otherwise one more than an existing id. |
| Tables.FindMovie | api/app/db_helpers.py:13-14 | A primary-key lookup finds nothing exactly when no row has the id. Otherwise it finds the first row with that id. |
| Tables.FindMovieAt | api/app/tables.py:41 | With unique ids, looking up a row's id finds that very row. |
| Tables.FirstGenreNamed | api/app/db_helpers.py:21 | The name filter finds nothing exactly when no genre has the name. Otherwise it finds the first genre with it. |
| Tables.FirstGenreNamedAppend | api/app/db_helpers.py:24-28 | After a genre with a new name is added, a lookup of that name finds it, and every other lookup is unchanged. |
| Tables.AppendNewGenre | api/app/db_helpers.py:24-29 | After a genre is added under a name the table lacks, that name finds the new row, every earlier lookup finds what it found before, and unique names stay unique. |
| Tables.AppendNextId | api/app/tables.py:16-17 | A genre row given the next id keeps genre ids distinct. |
| Tables.LinkKeysUniqueIffRowsDistinct | api/app/tables.py:11-13 | The link table's (genre id, movie id) key is unique exactly when no movie lists a genre id twice. |
| Tables.ResolvedIdsDistinct | api/app/tables.py:11-13 | Genres resolved name by name have distinct ids exactly when the names are distinct, so a repeated name breaks the link key. |
| Tables.ResolveAllShape | api/app/movies.py:76-80 | The genre loop only appends to the genre table: one row per name the table lacks, never two for one name, and every earlier lookup still finds what it found. Each collected row is what its name's lookup finds in the final table. Distinct ids and unique names are preserved. |
| Tables.ResolveAllNamesIds | api/app/movies.py:76-80 | The collected rows carry the listed names in order. Over a table with distinct ids, the table keeps them distinct and the rows are distinct exactly when the names are. |
| Tables.LinkRowsListed | api/app/movies.py:124 | After a genre list is assigned, the movie is linked to exactly the listed genre ids, and every link row is a listed genre. |
| Tables.LinkRowsDistinct | api/app/tables.py:11-13 | The link key stays unique exactly when no genre the movie was not linked to is listed twice. |
| Tables.LinkRowsNoRepeats | api/app/movies.py:124 | A list without repeated ids becomes the link rows exactly as given, in order. |
| Tables.OwnYearTitleFree | api/app/tables.py:35-36 | In a stored table, no other row holds a row's own (year, title). |
| Tables.ConstraintsInsert | api/app/tables.py:34-46 | Inserting a row with a fresh id keeps the constraints exactly when the row is valid and its (year, title) is not stored yet. |
| Tables.ConstraintsReplace | api/app/tables.py:34-43 | Replacing a row keeps the constraints exactly when the new row is valid and no other row holds its (year, title). |
| Tables.ConstraintsDelete | api/app/tables.py:34-53 | Deleting a row always keeps the constraints. |
| Tables.SuppliedFieldsEmpty | api/app/tables.py:68-73 | An update supplies no field exactly when every field is left at its default None. |
| Tables.SuppliedFieldsShape | api/app/tables.py:68-73 | Every supplied field is a column exactly when `genres` is None. Every supplied field can be set exactly when `genres` is None or empty. A supplied `genres` comes last. |
| Tables.SetAttrsIsMerge | api/app/movies.py:114-117 | For an update whose `genres`, if supplied, is empty: setting the supplied fields one by one, in declaration order, yields the field-by-field merge of the columns. The genre relationship is emptied when `genres` is supplied and kept otherwise. |
| Tables.MergeUpdateKeeps | api/app/movies.py:114-117 | A merge keeps the id, genres and timestamps, and applying it twice equals applying it once. An update that supplies nothing leaves the row as it was. |
| Tables.PersistStored | api/app/tables.py:44-49 | A committed state satisfies every constraint, and every stored movie has `created_at`. |
| Tables.StampUnchanged | api/app/tables.py:47-49 | Committing rows the store already holds, unchanged, assigns no timestamp. |
| Tables.StampInsert | api/app/tables.py:44-49 | A newly inserted row gets `created_at` and no `updated_at`. Every other row is unchanged. |
| Tables.StampReplace | api/app/tables.py:47-49 | A changed row keeps its `created_at`. It gets `updated_at` exactly when a column differs. Every other row is unchanged. |
| DbHelpers.Session.GetObjectOr404 | api/app/db_helpers.py:13-17 | Succeeds exactly when a row with the id exists, returning a stored row with that id. Otherwise fails with 404 "Movie not found". |
| DbHelpers.Session.Flush | api/app/db_helpers.py:21 | The autoflush before a query fails, unhandled, exactly when the pending changes violate a constraint. |
| DbHelpers.Session.GetOrCreate | api/app/db_helpers.py:20-29 | When the pending changes violate a constraint, the query's flush fails unhandled and nothing changes. Otherwise a present name returns its first row with the table unchanged. An absent name adds exactly one row, with that name and the next id, and returns it. Later lookups of that name return the same row, earlier lookups are preserved, movies and users are untouched, the constraints still hold, and a table with unique names keeps them unique. |
| DbHelpers.Session.Add | api/app/movies.py:82 | The added row gets the next id, which no stored row has. Nothing else changes. |
| DbHelpers.Session.Put | api/app/movies.py:128 | Row `k` of the session is replaced. Nothing else changes. |
| DbHelpers.Session.Delete | api/app/movies.py:139 | Row `k` of the session is removed. Nothing else changes. |
| DbHelpers.Session.AddUser | api/app/db_helpers.py:68-70 | One user is appended to the session. Nothing else changes. |
| DbHelpers.Session.Commit | api/app/db_helpers.py:36-45 | Fails exactly when the pending state violates a constraint. A failure is 422 "Database error occurred, check params." and leaves the store unchanged. Otherwise the pending state is persisted with timestamps stamped. The store stays valid either way. |
| DbHelpers.GetUser | api/app/db_helpers.py:52-63 | Returns None exactly when no user has the email. Otherwise returns the first user with it. |
| DbHelpers.RequireLogin | api/app/db_helpers.py:79-99 | A missing token, an undecodable token, a payload without "sub", or an unknown subject each fail with the 401 not-authenticated error. Otherwise returns a stored user whose email is the subject. |
| DbHelpers.UsersUniqueAppend | api/app/db_helpers.py:66-71 | Appending a user keeps emails and usernames unique exactly when neither is already taken. |
| DbHelpers.CreateUser | api/app/db_helpers.py:66-76 | Succeeds exactly when neither the email nor the username is taken. It then appends exactly that user. Otherwise fails with 422 and leaves the store unchanged. |
| Movies.SearchMovies | api/app/movies.py:26-59 | A 4xx becomes 400 "Bad search params". Any other non-2xx becomes 504. A 2xx returns the results unchanged. |
| Movies.SearchAgreesWithRespErrorHandling | api/app/movies.py:44-57 | The search route fails exactly when the shared status classification does, with the same error. |
| Movies.ResolveGenres | api/app/movies.py:76-80 | With pending changes that violate a constraint and at least one name, the first lookup fails unhandled and nothing changes. Otherwise it returns exactly the rows `Tables.ResolveAll` collects, and the session's genre table becomes exactly the table `ResolveAll` leaves. Movies and users are untouched. |
| Movies.SetAttrs | api/app/movies.py:114-117 | Fails, unhandled, exactly when the body supplies a non-empty `genres` list. Otherwise returns the field-by-field merge of the supplied columns, with the genre relationship emptied when the body supplies an empty `genres` list. |
| Movies.LinkGenres | api/app/movies.py:120-124 | Runs the genre loop on row `k`. It fails, unhandled, exactly when the loop's first flush does. Otherwise row `k` gets the link rows `Tables.LinkRows` gives for the resolved genres, the genre table is the one the loop leaves, and nothing else changes. |
| Movies.AssignGenres | api/app/movies.py:119-124 | With the merged row pending, fails unhandled exactly when a non-empty list is given and another row holds the merged (year, title). Otherwise row `k` becomes the merged row with the new link rows, the genre table is the one the loop leaves, and the genre ids stay distinct. The new links are computed against the links the merged row holds, which are empty after a body `genres: []`. The row is valid exactly when no genre it was not linked to is listed twice. Distinct names give genres named as listed. |
| Movies.InsertMovie | api/app/movies.py:74-88 | Succeeds exactly when the year is valid, the runtime is given, the genre names are distinct and the (year, title) is free. The row is then appended with the next id, `created_at` set and no `updated_at`. Its genres are exactly the rows the genre loop collects, named as given, in order, and the genre table is exactly the one the loop leaves, so no stored genre is lost. Otherwise fails with 422 and the store is unchanged. |
| Movies.NewRow | api/app/movies.py:74 | The row copies every column of the create payload and has no genres or timestamps yet. |
| Movies.CreateMovie | api/app/movies.py:63-88 | A year not above 1878 is rejected by validation. A (year, title) already stored, or a repeated genre name, gives 422 with the store unchanged. Otherwise exactly one row is appended, with the payload's columns, `created_at` set and no `updated_at`. Its genres are the rows the genre loop collects for the `genres` list, named as given, in order, and the genre table is the one the loop leaves. |
| Movies.ReadMovie | api/app/movies.py:97-100 | Succeeds exactly when the id is stored, returning the only stored row with that id. Otherwise fails with 404 "Movie not found". |
| Movies.StoreUpdate | api/app/movies.py:119-130 | Succeeds exactly when the update does not clash: no other row holds the merged (year, title), and no genre the row was not linked to is listed twice. A (year, title) clash with a non-empty list fails unhandled at the flush; every other clash is 422; either way the store is unchanged. On success only row `k` and the genre table change: the row gets the merged columns and the new link rows, keeps `created_at`, and gets `updated_at` exactly when a column changed. The genre table becomes the one the genre loop leaves, or stays as it was when no list is given. |
| Movies.UpdateMovie | api/app/movies.py:104-133 | Checks in order: a body year not above 1878 is rejected; an absent id gives 404; a non-empty body `genres` list fails unhandled. With neither body nor genres, it returns the stored row and writes nothing. Otherwise it succeeds exactly when the update does not clash. The stored row gets the merged columns, keeps `created_at`, and gets `updated_at` exactly when a column changed. Its links are the ones the assigned list leaves. Without a list, the links are the stored ones, or none after a body `genres: []`. Only that row and the genre table change, and the genre table becomes the one the genre loop leaves. A list of distinct names gives genres named as listed, so `[]` clears them. A (year, title) clash with a non-empty list fails unhandled; any other clash is 422; both leave the store unchanged. |
| Movies.DeleteMovie | api/app/movies.py:136-143 | An absent id gives 404 with the store unchanged. Otherwise exactly that row is removed, every other row and table is untouched, and the answer is `{"ok": True}`. |
| Movies.RemovedOnly | api/app/movies.py:138-140 | With unique ids, the rows left after a delete are exactly the stored rows whose id differs. |
| Api.HandlePosterSubmission | api/app/api.py:49-60 | No file gives no URL. Any file gives "/static/path/poster_img.jpg". |
| Api.FormUpdate | api/app/api.py:172-183 | The form's update carries the form's columns, no genres and no image, because the poster URL goes under an undeclared keyword. It supplies no field exactly when every form column is None. |
| Api.CreateMovie | api/app/api.py:95-136 | A year not above 1878 is rejected by validation. A missing runtime, a taken (year, title) or a repeated genre name gives 422 with the store unchanged. Otherwise one row is appended with the form's columns and no image. Its genres are the rows the genre loop collects, named as given, in order, and the genre table is the one the loop leaves. |
| Api.ReadMovie | api/app/api.py:145-150 | Succeeds exactly when the id is stored, returning a stored row with that id. Otherwise fails with 404 "Movie not found". |
| Api.UpdateMovie | api/app/api.py:153-199 | An invalid year is rejected, then an absent id gives 404. Otherwise it always commits. It succeeds exactly when the update does not clash, and then stores the merge of the supplied form fields with the link rows the assigned list leaves. Only that row and the genre table change. A (year, title) clash with a non-empty list fails unhandled; any other clash is 422; both leave the store unchanged. When nothing is supplied, the store and the row stay exactly as they were. |
| Api.UpdateStored | api/app/api.py:172-199 | Once the row is loaded, it succeeds exactly when the form update does not clash, and then stores the merge of the supplied form fields with the link rows the assigned list leaves. Only that row and the genre table change. A (year, title) clash with a non-empty list fails unhandled; any other clash is 422; both leave the store unchanged. When nothing is supplied, the store and the row stay exactly as they were. |
| Api.DeleteMovie | api/app/api.py:202-211 | An absent id gives 404. Otherwise exactly that row is removed and the answer is `{"ok": True}`. |
| Users.GetUserAttrs | api/app/users.py:29-33 | Returns None exactly when no user matches the filter. Otherwise returns the first user that matches. |
| Users.GetUser | api/app/users.py:17-26 | Returns None exactly when no user has the email. Otherwise returns a stored user with that email. |
| Users.GetUserAgrees | api/app/users.py:17-26 | The users router's `get_user` and the database helper's `get_user` return the same user for every table and email. |
| Users.Register | api/app/users.py:52-66 | A taken email gives 400 "A user with this email already exists", and that check comes first, so it wins when both clash. A taken username gives 400 "A user with this username already exists". On either error the store is unchanged. Registration succeeds exactly when neither is taken, and then appends exactly one user, so emails and usernames stay unique. |
| Users.Login | api/app/users.py:69-87 | An unknown email fails with invalid credentials. So does a password that does not verify against the first user with that email. Success issues a token whose subject is the email. |

## Left out

- Concurrency is not modelled: the asyncio semaphore around upstream calls and all async scheduling.
- Outbound HTTP requests are not modelled. An upstream response is a status code plus an already-parsed body.
- Malformed upstream bodies (schema validation failures, answered 500) are not modelled.
- ORM mechanics are replaced by the `Database` and `Session` classes: engine creation, identity map, flush order, refresh, and the dirty-checking beyond comparing column values. The autoflush before each query is `DbHelpers.Session.Flush`, and the link rows a flush leaves for a replaced genre list are `Tables.LinkRows`.
- The order in which a refreshed row lists its genres is not modelled. The returned row lists its link rows in the order the genre list first names them.
- Password hashing, token signing and decoding, and cookie setting are foreign library calls. Verification and decoding are parameters (`verify`, `decode`), and a login's token is its subject claim.
- Settings loading, the OpenAPI patch, logging and the unimplemented API-key redaction are not modelled.
- Request parsing by the validation library is not modelled beyond the year check: dates, missing required fields and malformed bodies.
- The `list_movies` routes are not modelled. They are unfiltered reads of the table.
- `search_movies` in `api.py` is not modelled. It returns the upstream body without checking the status.
- The `create_user` of `users.py` is not modelled separately. It is the same code as `create_user` in `db_helpers.py`, which is `DbHelpers.CreateUser`.
- Wall-clock timestamps are set/unset flags, not times.
- Integer width is not modelled. Ids and years are unbounded, as SQLite's 64-bit integers are out of reach here.
- Users.GetUser: states only that a returned user is stored and has the email. That it is the first such user follows from `Users.GetUserAttrs` and `Users.GetUserAgrees`.
- Api.CreateMovie: `api.py` calls `get_or_create` and `commit` without `await`, so as written the genre list holds unawaited coroutines and nothing is committed. The model runs both helpers to completion, as the router revision in `movies.py` does.
- Api.UpdateMovie: the same unawaited `get_or_create` and `commit` calls are run to completion here too.
- Api.DeleteMovie: the unawaited `commit` is run to completion, so the delete is persisted.
- DbHelpers.CreateUser: the User table is not part of the schema in `api/app/tables.py`. Its fields (email, username, password) and its unique constraints on email and on username follow the description of the service, not code. The 422 on a clash rests on those constraints, and so do `DbHelpers.UsersUniqueAppend` and `Tables.UsersUnique`.
