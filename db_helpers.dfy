/**
 * The database helpers: the committed store, the request-scoped session
 * that works on a copy of it, lookup-or-404, get-or-create, commit with its
 * error mapping, the user lookup and the login requirement.
 */
module DbHelpers {
  import opened Outcomes
  import opened Tables

  const CommitErrorDetail := "Database error occurred, check params."
  /** `f"{model.__name__} not found"` for the Movie model, the only one looked up by id. */
  const MovieNotFound := "Movie not found"
  /** The claim under which a session token stores the user's email. */
  const SubjectClaim := "sub"

  /** The database file: the state every committed transaction leaves behind. */
  class Database {
    var rows: Db

    ghost predicate Valid()
      reads this
    {
      Stored(rows)
    }

    constructor ()
      ensures Valid() && rows == Db([], [], [])
    {
      rows := Db([], [], []);
    }
  }

  /**
   * A session: a unit of work over a copy of the committed state. Changes
   * made through it become visible to later queries in the same session and
   * reach the database only when `Commit` succeeds.
   */
  class Session {
    const database: Database
    var work: Db

    constructor (database: Database)
      ensures this.database == database && work == database.rows
    {
      this.database := database;
      work := database.rows;
    }

    /** `get_object_or_404` for a movie id. */
    function GetObjectOr404(id: int): (r: Result<Movie>)
      reads this
      ensures r.Ok? <==> exists i :: 0 <= i < |work.movies| && work.movies[i].id == id
      ensures r.Ok? ==> r.value in work.movies && r.value.id == id
      ensures r.Err? ==> r.error == HttpError(404, MovieNotFound)
    {
      match FindMovie(work.movies, id)
      case Some(k) => Ok(work.movies[k])
      case None => Err(HttpError(404, MovieNotFound))
    }

    /**
     * The autoflush every query runs first: pending changes that violate a
     * constraint raise here, outside `commit`'s error handling, and fail the
     * request as an unhandled error.
     */
    method Flush() returns (e: Option<Error>)
      ensures e.None? <==> Constraints(work)
      ensures e.Some? ==> e.value == Unhandled
    {
      e := if Constraints(work) then None else Some(Unhandled);
    }

    /**
     * `get_or_create` for a genre name: its query first flushes the pending
     * changes; then it returns the first genre with that name, or a new row
     * with that name and the next id, flushed so that later lookups in this
     * session find it.
     */
    method GetOrCreate(name: string) returns (r: Result<Genre>)
      modifies this
      ensures !Constraints(old(work)) ==> r == Err(Unhandled) && work == old(work)
      ensures Constraints(old(work)) ==> r.Ok? && Constraints(work)
      ensures work.movies == old(work.movies) && work.users == old(work.users)
      ensures r.Ok? && FirstGenreNamed(old(work.genres), name).Some? ==>
                r.value == FirstGenreNamed(old(work.genres), name).value && work.genres == old(work.genres)
      ensures r.Ok? && FirstGenreNamed(old(work.genres), name).None? ==>
                r.value == Genre(NextRowId(GenreIds(old(work.genres))), name) && work.genres == old(work.genres) + [r.value]
      ensures r.Ok? ==> r.value.name == name && FirstGenreNamed(work.genres, name) == Some(r.value)
      ensures r.Ok? ==> LookupsKept(old(work.genres), work.genres)
      ensures NamesUnique(old(work.genres)) ==> NamesUnique(work.genres)
    {
      var e := Flush();
      if e.Some? {
        return Err(e.value);
      }
      var found := FirstGenreNamed(work.genres, name);
      if found.Some? {
        r := Ok(found.value);
      } else {
        var g := Genre(NextRowId(GenreIds(work.genres)), name);
        AppendNewGenre(work.genres, g);
        AppendNextId(work.genres, name);
        work := work.(genres := work.genres + [g]);
        r := Ok(g);
      }
    }

    /** `session.add` of a new movie; the row gets the next id when it is flushed. */
    method Add(m: Movie) returns (row: Movie)
      modifies this
      ensures row == m.(id := NextRowId(MovieIds(old(work.movies))))
      ensures forall i :: 0 <= i < |old(work.movies)| ==> old(work.movies)[i].id != row.id
      ensures work == old(work).(movies := old(work.movies) + [row])
    {
      row := m.(id := NextRowId(MovieIds(work.movies)));
      assert forall i :: 0 <= i < |work.movies| ==> MovieIds(work.movies)[i] == work.movies[i].id;
      work := work.(movies := work.movies + [row]);
    }

    /** `session.add` of a movie loaded in this session and changed since. */
    method Put(k: nat, m: Movie)
      requires k < |work.movies| && work.movies[k].id == m.id
      modifies this
      ensures work == old(work).(movies := old(work.movies)[k := m])
    {
      work := work.(movies := work.movies[k := m]);
    }

    /** `session.delete` of the movie at position `k`. */
    method Delete(k: nat)
      requires k < |work.movies|
      modifies this
      ensures work == old(work).(movies := old(work.movies)[..k] + old(work.movies)[k + 1..])
    {
      work := work.(movies := work.movies[..k] + work.movies[k + 1..]);
    }

    /** `session.add` of a new user. */
    method AddUser(u: User)
      modifies this
      ensures work == old(work).(users := old(work.users) + [u])
    {
      work := work.(users := work.users + [u]);
    }

    /**
     * `commit`: persist the session's changes, or, when they violate a
     * constraint, roll them back and answer 422.
     */
    method Commit() returns (e: Option<Error>)
      requires database.Valid()
      modifies this, database
      ensures database.Valid()
      ensures e.None? <==> Constraints(old(work))
      ensures e.None? ==> database.rows == Persist(old(database.rows), old(work))
      ensures e.Some? ==> e.value == HttpError(422, CommitErrorDetail) && database.rows == old(database.rows)
      ensures work == database.rows
    {
      if Constraints(work) {
        PersistStored(database.rows, work);
        database.rows := Persist(database.rows, work);
        e := None;
      } else {
        e := Some(HttpError(422, CommitErrorDetail));
      }
      work := database.rows;
    }
  }

  /** `get_user`: the first stored user with this email. */
  function GetUser(users: seq<User>, email: string): (r: Option<User>)
    ensures r.None? <==> forall i :: 0 <= i < |users| ==> users[i].email != email
    ensures r.Some? ==> exists k :: 0 <= k < |users| && users[k] == r.value && r.value.email == email &&
                                    forall i :: 0 <= i < k ==> users[i].email != email
  {
    if users == [] then None
    else if users[0].email == email then Some(users[0])
    else
      var rest := GetUser(users[1..], email);
      assert forall i :: 1 <= i < |users| ==> users[i] == users[1..][i - 1];
      assert rest.Some? ==> exists k :: 0 <= k < |users| && users[k] == rest.value &&
                                        forall i :: 0 <= i < k ==> users[i].email != email by {
        if rest.Some? {
          var k :| 0 <= k < |users[1..]| && users[1..][k] == rest.value &&
                   forall i :: 0 <= i < k ==> users[1..][i].email != email;
          assert users[k + 1] == rest.value;
        }
      }
      rest
  }

  /** A decoded token's claims. */
  type Payload = map<string, string>

  /**
   * `require_login`: a missing token, a token the login manager cannot
   * decode, a payload without a subject, or a subject no user has all fail
   * with the login manager's 401; otherwise the user with that email.
   * `decode` stands for the login manager's signature check and decoding.
   */
  function RequireLogin(users: seq<User>, token: Option<string>, decode: string -> Option<Payload>): (r: Result<User>)
    ensures token.None? ==> r == Err(NotAuthenticated)
    ensures token.Some? && decode(token.value).None? ==> r == Err(NotAuthenticated)
    ensures token.Some? && decode(token.value).Some? && SubjectClaim !in decode(token.value).value ==>
              r == Err(NotAuthenticated)
    ensures r.Err? ==> r.error == NotAuthenticated
    ensures r.Ok? <==> token.Some? && decode(token.value).Some? && SubjectClaim in decode(token.value).value &&
                       exists i :: 0 <= i < |users| && users[i].email == decode(token.value).value[SubjectClaim]
    ensures r.Ok? ==> r.value in users && r.value.email == decode(token.value).value[SubjectClaim]
  {
    match token
    case None => Err(NotAuthenticated)
    case Some(t) =>
      match decode(t)
      case None => Err(NotAuthenticated)
      case Some(payload) =>
        if SubjectClaim !in payload then Err(NotAuthenticated)
        else
          match GetUser(users, payload[SubjectClaim])
          case None => Err(NotAuthenticated)
          case Some(user) => Ok(user)
  }

  /** Does some stored user already have this email or this username? */
  predicate UserClashes(users: seq<User>, email: string, username: string)
  {
    exists i :: 0 <= i < |users| && (users[i].email == email || users[i].username == username)
  }

  lemma UsersUniqueAppend(users: seq<User>, u: User)
    requires UsersUnique(users)
    ensures UsersUnique(users + [u]) <==> !UserClashes(users, u.email, u.username)
  {
    if UserClashes(users, u.email, u.username) {
      var i :| 0 <= i < |users| && (users[i].email == u.email || users[i].username == u.username);
      assert (users + [u])[i] == users[i] && (users + [u])[|users|] == u;
    }
  }

  /**
   * `create_user`: store the user as given and commit; a clash on email or
   * username is a constraint violation and answers 422.
   */
  method CreateUser(database: Database, user: UserCreate) returns (r: Result<User>)
    requires database.Valid()
    modifies database
    ensures database.Valid()
    ensures r.Ok? <==> !UserClashes(old(database.rows.users), user.email, user.username)
    ensures r.Ok? ==> r.value == User(user.email, user.username, user.password) &&
                      database.rows == old(database.rows).(users := old(database.rows.users) + [r.value])
    ensures r.Err? ==> r.error == HttpError(422, CommitErrorDetail) && database.rows == old(database.rows)
  {
    var session := new Session(database);
    var u := User(user.email, user.username, user.password);
    session.AddUser(u);
    UsersUniqueAppend(database.rows.users, u);
    StampUnchanged(database.rows.movies, database.rows.movies);
    var e := session.Commit();
    if e.Some? {
      return Err(e.value);
    }
    r := Ok(u);
  }
}
