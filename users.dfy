/**
 * The users router: lookups by email or username, registration with its two
 * uniqueness checks, and the login decision. Password verification is the
 * `verify` parameter; issuing the token is its subject claim.
 */
module Users {
  import opened Outcomes
  import opened Tables
  import DbHelpers

  const EmailExists := "A user with this email already exists"
  const UsernameExists := "A user with this username already exists"

  /** One `filter_by` keyword argument over the user table. */
  datatype UserFilter = ByEmail(email: string) | ByUsername(username: string)

  predicate Matches(u: User, f: UserFilter)
  {
    match f
    case ByEmail(e) => u.email == e
    case ByUsername(n) => u.username == n
  }

  /** `get_user_attrs`: the first stored user the filter matches. */
  function GetUserAttrs(users: seq<User>, f: UserFilter): (r: Option<User>)
    ensures r.None? <==> forall i :: 0 <= i < |users| ==> !Matches(users[i], f)
    ensures r.Some? ==> exists k :: 0 <= k < |users| && users[k] == r.value && Matches(r.value, f) &&
                                    forall i :: 0 <= i < k ==> !Matches(users[i], f)
  {
    if users == [] then None
    else if Matches(users[0], f) then Some(users[0])
    else
      var rest := GetUserAttrs(users[1..], f);
      assert forall i :: 1 <= i < |users| ==> users[i] == users[1..][i - 1];
      assert rest.Some? ==> exists k :: 0 <= k < |users| && users[k] == rest.value && Matches(rest.value, f) &&
                                        forall i :: 0 <= i < k ==> !Matches(users[i], f) by {
        if rest.Some? {
          var k :| 0 <= k < |users[1..]| && users[1..][k] == rest.value && Matches(rest.value, f) &&
                   forall i :: 0 <= i < k ==> !Matches(users[1..][i], f);
          assert users[k + 1] == rest.value;
        }
      }
      rest
  }

  /** `get_user` of the users router, the login manager's user loader: the email filter. */
  function GetUser(users: seq<User>, email: string): (r: Option<User>)
    ensures r.None? <==> forall i :: 0 <= i < |users| ==> users[i].email != email
    ensures r.Some? ==> r.value in users && r.value.email == email
  {
    GetUserAttrs(users, ByEmail(email))
  }

  /** The router's loader and the database helper's `get_user` find the same user. */
  lemma {:induction false} GetUserAgrees(users: seq<User>, email: string)
    ensures GetUser(users, email) == DbHelpers.GetUser(users, email)
  {
    if users != [] && users[0].email != email {
      GetUserAgrees(users[1..], email);
    }
  }

  /**
   * `register`: an email already stored is reported first, then a username
   * already stored; otherwise the user is created as given.
   */
  method Register(database: DbHelpers.Database, user: UserCreate) returns (r: Result<User>)
    requires database.Valid()
    modifies database
    ensures database.Valid()
    ensures GetUser(old(database.rows.users), user.email).Some? ==> r == Err(HttpError(400, EmailExists))
    ensures GetUser(old(database.rows.users), user.email).None? &&
            GetUserAttrs(old(database.rows.users), ByUsername(user.username)).Some? ==>
              r == Err(HttpError(400, UsernameExists))
    ensures r.Err? ==> database.rows == old(database.rows)
    ensures r.Ok? <==> forall i :: 0 <= i < |old(database.rows.users)| ==>
                         old(database.rows.users)[i].email != user.email &&
                         old(database.rows.users)[i].username != user.username
    ensures r.Ok? ==> r.value == User(user.email, user.username, user.password) &&
                      database.rows == old(database.rows).(users := old(database.rows.users) + [r.value])
  {
    if GetUser(database.rows.users, user.email).Some? {
      return Err(HttpError(400, EmailExists));
    }
    if GetUserAttrs(database.rows.users, ByUsername(user.username)).Some? {
      return Err(HttpError(400, UsernameExists));
    }
    r := DbHelpers.CreateUser(database, user);
  }

  /** What a successful login issues: a token whose subject claim is the user's email. */
  datatype Token = Token(sub: string)

  /**
   * `login`: the form's username field carries the email; an unknown email
   * and a password that does not verify against the stored hash fail alike.
   */
  function Login(users: seq<User>, email: string, password: string, verify: (string, string) -> bool): (r: Result<Token>)
    ensures GetUser(users, email).None? ==> r == Err(InvalidCredentials)
    ensures GetUser(users, email).Some? && !verify(password, GetUser(users, email).value.password) ==>
              r == Err(InvalidCredentials)
    ensures r.Err? ==> r.error == InvalidCredentials
    ensures r.Ok? <==> exists k :: 0 <= k < |users| && users[k].email == email &&
                                   (forall i :: 0 <= i < k ==> users[i].email != email) &&
                                   verify(password, users[k].password)
    ensures r.Ok? ==> r.value == Token(email)
  {
    match GetUser(users, email)
    case None => Err(InvalidCredentials)
    case Some(user) =>
      if !verify(password, user.password) then Err(InvalidCredentials)
      else Ok(Token(user.email))
  }
}
