/**
 * Registration and login over the user table. Password hashing, hash comparison
 * and token signing are foreign libraries and are parameters here: `hash` stands
 * for `bcrypt.hash`, `compare` for `bcrypt.compare`, `sign` for `jwt.sign` with
 * the server's secret and a seven-day expiry.
 */
module Auth {
  import opened Wrappers
  import opened Tables
  import opened Store
  import opened Http

  /** The response body of a successful registration or login: a token for `{ userId, email }` and the password-free user. */
  function SessionFor(u: User, sign: Claims -> string): Body {
    Session(sign(Claims(u.id, u.email)), PublicUser(u.id, u.email, u.username))
  }

  /**
   * `signUp`: all three fields required, the email must be new, then one user is
   * inserted with the hash of the password.
   */
  method SignUp(db: Database, email: Option<string>, username: Option<string>, password: Option<string>,
                hash: string -> string, sign: Claims -> string) returns (r: Response)
    requires db.Valid()
    modifies db`users, db`nextUserId
    ensures db.Valid()
    ensures r == Response(400, Error(MissingFields)) <==> !(HasText(email) && HasText(username) && HasText(password))
    ensures r == Response(409, Error(EmailInUse)) <==>
              HasText(email) && HasText(username) && HasText(password) && FindByEmail(old(db.users), email.value).Some?
    ensures r.status == 201 <==>
              HasText(email) && HasText(username) && HasText(password) && FindByEmail(old(db.users), email.value).None?
    ensures r.status != 201 ==> unchanged(db)
    ensures r.status == 201 ==>
              var u := User(old(db.nextUserId), email.value, username.value, hash(password.value));
              && db.users == old(db.users) + [u]
              && r.body == SessionFor(u, sign)
  {
    if !(HasText(email) && HasText(username) && HasText(password)) {
      return Response(400, Error(MissingFields));
    }
    var existing := FindByEmail(db.users, email.value);
    if existing.Some? {
      return Response(409, Error(EmailInUse));
    }
    var hashed := hash(password.value);
    var u := db.CreateUser(email.value, username.value, hashed);
    r := Response(201, SessionFor(u, sign));
  }

  /**
   * `signIn`: both fields required; an unknown email and a wrong password get the
   * same 401 answer. Being a function, it changes no table.
   */
  function SignIn(users: seq<User>, email: Option<string>, password: Option<string>,
                  compare: (string, string) -> bool, sign: Claims -> string): (r: Response)
    requires UniqueEmails(users)
    ensures r == Response(400, Error(MissingFields)) <==> !(HasText(email) && HasText(password))
    ensures r.status == 401 <==>
              HasText(email) && HasText(password) &&
              forall u :: u in users && u.email == email.value ==> !compare(password.value, u.password)
    ensures r.status == 401 ==> r.body == Error(InvalidCredentials)
    ensures r.status == 200 ==>
              exists u :: u in users && u.email == email.value && compare(password.value, u.password) &&
                          r.body == SessionFor(u, sign)
    ensures r.status in {200, 400, 401}
  {
    if !(HasText(email) && HasText(password)) then Response(400, Error(MissingFields))
    else
      var user := FindByEmail(users, email.value);
      FoundIsOnly(users, email.value);
      if user.None? || !compare(password.value, user.value.password) then Response(401, Error(InvalidCredentials))
      else Response(200, SessionFor(user.value, sign))
  }

  /**
   * A user just registered with a password can log in with it, provided comparing
   * a password with its own hash succeeds.
   */
  lemma RegisteredUserCanSignIn(users: seq<User>, u: User, password: string,
                                hash: string -> string, compare: (string, string) -> bool, sign: Claims -> string)
    requires UniqueEmails(users) && FindByEmail(users, u.email).None? && u.email != "" && password != ""
    requires u.password == hash(password) && compare(password, hash(password))
    ensures SignIn(users + [u], Some(u.email), Some(password), compare, sign) == Response(200, SessionFor(u, sign))
  {
    FindByEmailAppend(users, u, u.email);
    forall i, j | 0 <= i < j < |users + [u]| ensures (users + [u])[i].email != (users + [u])[j].email {
      if j == |users| {
        assert (users + [u])[i] == users[i];
      }
    }
  }

  /** Once registered, the same email is refused by a second registration. */
  lemma RegisteredEmailIsTaken(users: seq<User>, u: User)
    ensures FindByEmail(users + [u], u.email).Some?
  {
    FindByEmailAppend(users, u, u.email);
  }
}
