/** The identity helpers: registration into the users table, username-or-email
    login that fills the session, the session reads, and the set-once CSRF
    token. `password_hash`, `password_verify`, `filter_var` and `random_bytes`
    are foreign calls and arrive as parameters. */
module Auth {
  import opened Common
  import opened Store

  const TakenMessage := "Username or email already exists"
  const ShortPasswordMessage := "Password must be at least 6 characters long"
  const BadEmailMessage := "Invalid email format"
  const RegisteredMessage := "Registration successful"
  const LoggedInMessage := "Login successful"
  const BadLoginMessage := "Invalid username or password"

  /** `strlen` bound on passwords. */
  const MinPasswordBytes := 6

  /** `WHERE username = ? OR email = ?`. Registration binds the new username
      and email; login binds its one identifier to both placeholders. */
  function SameIdentity(username: string, email: string): User -> bool {
    (u: User) => u.username == username || u.email == email
  }

  // ---------------------------------------------------------------------
  // registerUser
  // ---------------------------------------------------------------------

  /** The first failing registration check, in the order the helper runs them:
      taken username or email, short password, malformed email. */
  function RegisterRejection(users: seq<User>, username: string, email: string, password: string,
                             validEmail: string -> bool): (m: Option<string>)
    ensures m == Some(TakenMessage) <==>
              exists u :: u in users && (u.username == username || u.email == email)
    ensures m == Some(ShortPasswordMessage) <==>
              (forall u :: u in users ==> u.username != username && u.email != email) &&
              ByteLength(password) < MinPasswordBytes
    ensures m == Some(BadEmailMessage) <==>
              (forall u :: u in users ==> u.username != username && u.email != email) &&
              ByteLength(password) >= MinPasswordBytes && !validEmail(email)
    ensures m.None? <==>
              (forall u :: u in users ==> u.username != username && u.email != email) &&
              ByteLength(password) >= MinPasswordBytes && validEmail(email)
  {
    var clash := Filter(users, SameIdentity(username, email));
    if clash != [] then
      assert clash[0] in clash;
      Some(TakenMessage)
    else if ByteLength(password) < MinPasswordBytes then Some(ShortPasswordMessage)
    else if !validEmail(email) then Some(BadEmailMessage)
    else None
  }

  /** The row `INSERT INTO users` adds; the password is stored only as its hash. */
  function NewUser(id: int, username: string, email: string, passwordHash: string,
                   firstName: string, lastName: string): User {
    User(id, username, email, passwordHash, firstName, lastName)
  }

  /** A registration that passes the checks keeps usernames and emails unique. */
  lemma RegisterKeepsInvariant(users: seq<User>, nextId: int, username: string, email: string,
                               passwordHash: string, firstName: string, lastName: string)
    requires nextId >= 1 && UsersOk(users, nextId)
    requires forall u :: u in users ==> u.username != username && u.email != email
    ensures UsersOk(users + [NewUser(nextId, username, email, passwordHash, firstName, lastName)], nextId + 1)
  {
    var after := users + [NewUser(nextId, username, email, passwordHash, firstName, lastName)];
    forall i | 0 <= i < |after| ensures 1 <= after[i].id < nextId + 1 {
      if i < |users| {
        assert 1 <= users[i].id < nextId;
      }
    }
    forall i, j | 0 <= i < j < |after| ensures UserBefore(after[i], after[j]) {
      if j < |users| {
        assert UserBefore(users[i], users[j]);
      } else {
        assert users[i] in users;
        assert 1 <= users[i].id < nextId;
      }
    }
  }

  /** `registerUser`: on the first failing check nothing is inserted; otherwise
      exactly one row with the next id, the given names and `hash(password)`. */
  method RegisterUser(db: Db, username: string, email: string, password: string,
                      firstName: string, lastName: string,
                      validEmail: string -> bool, hash: string -> string) returns (res: Response)
    requires db.Valid()
    modifies db
    ensures db.Valid()
    ensures db.recipes == old(db.recipes) && db.ratings == old(db.ratings)
    ensures db.nextRecipeId == old(db.nextRecipeId) && db.nextRatingId == old(db.nextRatingId)
    ensures db.clock == old(db.clock)
    ensures var rejection := RegisterRejection(old(db.users), username, email, password, validEmail);
            if rejection.Some? then
              res == Response(false, rejection.value) &&
              db.users == old(db.users) && db.nextUserId == old(db.nextUserId)
            else
              res == Response(true, RegisteredMessage) &&
              db.users == old(db.users) + [NewUser(old(db.nextUserId), username, email, hash(password), firstName, lastName)] &&
              db.nextUserId == old(db.nextUserId) + 1
  {
    var rejection := RegisterRejection(db.users, username, email, password, validEmail);
    if rejection.Some? {
      return Response(false, rejection.value);
    }
    RegisterKeepsInvariant(db.users, db.nextUserId, username, email, hash(password), firstName, lastName);
    db.users := db.users + [NewUser(db.nextUserId, username, email, hash(password), firstName, lastName)];
    db.nextUserId := db.nextUserId + 1;
    res := Response(true, RegisteredMessage);
  }

  // ---------------------------------------------------------------------
  // loginUser
  // ---------------------------------------------------------------------

  /** The row `loginUser` fetches: the first whose username or email equals the
      identifier. */
  function FindLogin(users: seq<User>, identifier: string): (u: Option<User>)
    ensures u.Some? ==> u.value in users && (u.value.username == identifier || u.value.email == identifier)
    ensures u.None? <==> forall x :: x in users ==> x.username != identifier && x.email != identifier
  {
    var matches := Filter(users, SameIdentity(identifier, identifier));
    if matches == [] then None
    else
      assert matches[0] in matches;
      Some(matches[0])
  }

  /** The first matching row wins, so rows after it cannot be reached by that identifier. */
  lemma {:induction false} FindLoginFirst(users: seq<User>, identifier: string, k: nat)
    requires k < |users|
    requires users[k].username == identifier || users[k].email == identifier
    requires forall j :: 0 <= j < k ==> users[j].username != identifier && users[j].email != identifier
    ensures FindLogin(users, identifier) == Some(users[k])
  {
    var keep := SameIdentity(identifier, identifier);
    assert users == users[..k] + users[k..];
    FilterAppend(users[..k], users[k..], keep);
    FilterNone(users[..k], keep);
    assert users[k..] == [users[k]] + users[k + 1..];
    FilterAppend([users[k]], users[k + 1..], keep);
  }

  /** A newly registered user logs in by username, provided no earlier user has
      that string as email; registration does not check this (the taken check
      compares username with username and email with email only). */
  lemma RegisteredUserFoundByUsername(users: seq<User>, nextId: int, username: string, email: string,
                                      passwordHash: string, firstName: string, lastName: string)
    requires forall u :: u in users ==> u.username != username && u.email != email
    requires forall u :: u in users ==> u.email != username
    ensures var added := NewUser(nextId, username, email, passwordHash, firstName, lastName);
            FindLogin(users + [added], username) == Some(added)
  {
    var added := NewUser(nextId, username, email, passwordHash, firstName, lastName);
    var after := users + [added];
    forall j | 0 <= j < |users| ensures after[j].username != username && after[j].email != username {
      assert users[j] in users;
    }
    FindLoginFirst(after, username, |users|);
  }

  /** Likewise by email, provided no earlier user has that string as username. */
  lemma RegisteredUserFoundByEmail(users: seq<User>, nextId: int, username: string, email: string,
                                   passwordHash: string, firstName: string, lastName: string)
    requires forall u :: u in users ==> u.username != username && u.email != email
    requires forall u :: u in users ==> u.username != email
    ensures var added := NewUser(nextId, username, email, passwordHash, firstName, lastName);
            FindLogin(users + [added], email) == Some(added)
  {
    var added := NewUser(nextId, username, email, passwordHash, firstName, lastName);
    var after := users + [added];
    forall j | 0 <= j < |users| ensures after[j].username != email && after[j].email != email {
      assert users[j] in users;
    }
    FindLoginFirst(after, email, |users|);
  }

  /** Registration accepts a username equal to an existing user's email, after
      which logging in with that string reaches the older account. */
  lemma UsernameShadowedByEmail(validEmail: string -> bool)
    requires validEmail("c@x.org")
    ensures var earlier := NewUser(1, "alice", "b@x.org", "h1", "A", "A");
            RegisterRejection([earlier], "b@x.org", "c@x.org", "secret", validEmail).None?
    ensures var earlier := NewUser(1, "alice", "b@x.org", "h1", "A", "A");
            var added := NewUser(2, "b@x.org", "c@x.org", "h2", "B", "B");
            FindLogin([earlier, added], "b@x.org") == Some(earlier)
  {
    var earlier := NewUser(1, "alice", "b@x.org", "h1", "A", "A");
    var added := NewUser(2, "b@x.org", "c@x.org", "h2", "B", "B");
    assert ByteLength("secret") >= MinPasswordBytes;
    FindLoginFirst([earlier, added], "b@x.org", 0);
  }

  // ---------------------------------------------------------------------
  // The session
  // ---------------------------------------------------------------------

  /** What `getCurrentUser` returns. */
  datatype SessionUser = SessionUser(id: int, username: string, email: string, firstName: string, lastName: string)

  /** The `$_SESSION` keys the helpers write. `logged_in` is only ever set to
      `true`, so it is a boolean here; `csrf_token` may be unset. */
  class Session {
    var loggedIn: bool
    var userId: int
    var username: string
    var email: string
    var firstName: string
    var lastName: string
    var csrfToken: Option<string>

    /** A freshly started session holds no keys. */
    constructor ()
      ensures !loggedIn && csrfToken.None?
    {
      loggedIn := false;
      userId, username, email, firstName, lastName := 0, "", "", "", "";
      csrfToken := None;
    }

    /** `isLoggedIn`. */
    predicate IsLoggedIn(): (b: bool)
      reads this
      ensures b <==> loggedIn
    {
      loggedIn
    }

    /** `getCurrentUser`: null exactly when not logged in, else the five stored keys. */
    function CurrentUser(): (u: Option<SessionUser>)
      reads this
      ensures u.None? <==> !IsLoggedIn()
      ensures u.Some? ==> u.value.id == userId && u.value.username == username && u.value.email == email &&
                          u.value.firstName == firstName && u.value.lastName == lastName
    {
      if loggedIn then Some(SessionUser(userId, username, email, firstName, lastName)) else None
    }

    /** `validateCSRFToken`: a token is stored and equals `t` (`hash_equals`
        compares in constant time but decides plain equality). */
    function ValidateCsrfToken(t: string): (ok: bool)
      reads this
      ensures ok <==> csrfToken == Some(t)
    {
      csrfToken.Some? && csrfToken.value == t
    }

    /** `generateCSRFToken`: stores `randomHex` (standing for
        `bin2hex(random_bytes(32))`) only when no token is stored, and returns
        the stored token, which then validates. */
    method GenerateCsrfToken(randomHex: string) returns (token: string)
      modifies this
      ensures old(csrfToken).Some? ==> token == old(csrfToken).value
      ensures old(csrfToken).None? ==> token == randomHex
      ensures csrfToken == Some(token) && ValidateCsrfToken(token)
      ensures loggedIn == old(loggedIn) && CurrentUser() == old(CurrentUser())
    {
      if csrfToken.None? {
        csrfToken := Some(randomHex);
      }
      token := csrfToken.value;
    }

    /** The session as `loginUser` leaves it after accepting `u`. */
    ghost predicate HoldsUser(u: User)
      reads this
    {
      loggedIn && userId == u.id && username == u.username && email == u.email &&
      firstName == u.firstName && lastName == u.lastName
    }
  }

  /** `loginUser`: looks the identifier up as username or email and checks the
      password against the stored hash. On success the session holds that
      user; on failure it is left as it was. */
  method LoginUser(db: Db, session: Session, identifier: string, password: string,
                   verify: (string, string) -> bool) returns (res: Response)
    modifies session
    ensures var found := FindLogin(db.users, identifier);
            if found.Some? && verify(password, found.value.passwordHash) then
              res == Response(true, LoggedInMessage) && session.HoldsUser(found.value) &&
              session.CurrentUser() == Some(SessionUser(found.value.id, found.value.username, found.value.email,
                                                        found.value.firstName, found.value.lastName)) &&
              session.csrfToken == old(session.csrfToken)
            else
              res == Response(false, BadLoginMessage) &&
              session.loggedIn == old(session.loggedIn) && session.userId == old(session.userId) &&
              session.username == old(session.username) && session.email == old(session.email) &&
              session.firstName == old(session.firstName) && session.lastName == old(session.lastName) &&
              session.csrfToken == old(session.csrfToken)
  {
    var found := FindLogin(db.users, identifier);
    if found.Some? && verify(password, found.value.passwordHash) {
      var u := found.value;
      session.userId := u.id;
      session.username := u.username;
      session.email := u.email;
      session.firstName := u.firstName;
      session.lastName := u.lastName;
      session.loggedIn := true;
      return Response(true, LoggedInMessage);
    }
    res := Response(false, BadLoginMessage);
  }
}
