/** The `/register`, `/login` and `/forgot-password` routes of
    server/routes/authRouter.mjs, as methods over the `users` collection.

    Hashing, hash comparison and token signing belong to bcrypt and
    jsonwebtoken; they are opaque functions handed to the routes in a `Crypto`
    value (the signing secret is folded into `sign`). The `NODE_ENV` setting and
    the clock reading that jsonwebtoken puts in a token's `iat` claim are
    parameters. */
module AuthRouter {
  import opened Wrappers
  import opened Validators
  import opened UserModel

  /** The claims a session token is signed over. */
  datatype Claims = Claims(username: string, email: string)

  /** bcrypt's `hash(password, rounds)` and `compare(password, hash)`, and
      jsonwebtoken's `sign(claims, secret)` with the secret fixed; `sign` also
      reads the clock, whose reading (in seconds) it adds as the `iat` claim. */
  datatype Crypto = Crypto(
    hash: (string, nat) -> string,
    compare: (string, string) -> bool,
    sign: (Claims, nat) -> string)

  /** The `message` values the routes answer with. */
  datatype Message =
    | InvalidEmail
    | InvalidPassword
    | InvalidUsername
    | UserAlreadyExists
    | InvalidEmailOrUsername
    | UserNotFound
    | ResetEmailSent

  function MessageText(m: Message): string {
    match m
    case InvalidEmail => "Invalid email"
    case InvalidPassword => "Invalid password"
    case InvalidUsername => "Invalid username"
    case UserAlreadyExists => "User already exists"
    case InvalidEmailOrUsername => "Invalid email or username"
    case UserNotFound => "User not found"
    case ResetEmailSent => "Password reset email sent"
  }

  /** What a route answers: status 400 with a message, a `{token}` body, a
      `{message}` body with status 200, or the rejection of `save()`, which the
      route does not catch (no answer is written). */
  datatype Response =
    | BadRequest(message: Message)
    | TokenIssued(token: string)
    | Sent(message: Message)
    | SaveRejected(error: SaveError)

  /** The bcrypt cost: 1 when `NODE_ENV` is "development", 10 otherwise. */
  function SaltRounds(nodeEnv: string): (rounds: nat)
    ensures rounds == 1 || rounds == 10
    ensures rounds == 1 <==> nodeEnv == "development"
  {
    if nodeEnv == "development" then 1 else 10
  }

  /** The three validators of `/register` all pass. */
  predicate RegistrationFieldsValid(email: string, password: string, username: string) {
    IsValidEmail(email) && IsValidPassword(password) && IsValidUsername(username)
  }

  /** The document `/register` saves: email, username and hashed password,
      nothing else. */
  function RegistrationDoc(email: string, username: string, hashed: string): UserDoc {
    UserDoc(Some(email), Some(hashed), Some(username), None, None, None, None)
  }

  /** The pre-check of `/register`: a local account already has this email
      or this username. */
  predicate LocalAccountExists(users: seq<User>, email: string, username: string): (b: bool)
    ensures b <==> FindOne(users, LocalByEmailOrUsername(email, username)).Some?
  {
    exists k | 0 <= k < |users| :: Matches(users[k], LocalByEmailOrUsername(email, username))
  }

  /** `u` is the local account a login identifier designates: the identifier
      is compared with the email when it classifies as an email, with the
      username when it classifies as a username, and designates nothing when
      it is invalid. */
  predicate IsAccountFor(u: User, id: string) {
    && u.accountType == Local
    && match CheckEmailOrUsername(id)
       case Email => u.email == id
       case Username => u.username == id
       case Invalid => false
  }

  /** Some record is the local account `id` designates. */
  predicate HasAccount(users: seq<User>, id: string) {
    exists k | 0 <= k < |users| :: IsAccountFor(users[k], id)
  }

  /** The pre-check of `/register` is sound but incomplete against the
      unique indexes: a local match always holds the email or the username,
      and when a record holds one of them but no local account matches, that
      record is a Google account. */
  lemma PreCheckVersusIndexes(users: seq<User>, email: string, username: string)
    ensures LocalAccountExists(users, email, username) ==>
              Taken(users, EmailKey, email) || Taken(users, UsernameKey, username)
    ensures (Taken(users, EmailKey, email) || Taken(users, UsernameKey, username))
            && !LocalAccountExists(users, email, username) ==>
              exists k | 0 <= k < |users| ::
                users[k].accountType == Google && (users[k].email == email || users[k].username == username)
  {
  }

  /** A Google account holding "a@b.com" is invisible to the pre-check, yet
      `save()` rejects a local registration of the same email. */
  lemma GoogleAccountDefeatsPreCheck()
    ensures var users := [User("a@b.com", "x", "gg", None, RegularUser, Google, Active)];
            && !LocalAccountExists(users, "a@b.com", "ab1")
            && Insert(users, RegistrationDoc("a@b.com", "ab1", "h")) == Err(DuplicateKey(EmailKey))
  {
  }

  /** The lookup a classified identifier leads to. */
  function IdentifierQuery(kind: IdKind, id: string): (q: Query)
    requires kind != Invalid
    ensures forall u :: Matches(u, q) <==> u.accountType == Local && (if kind == Email then u.email else u.username) == id
  {
    if kind == Email then LocalByEmail(id) else LocalByUsername(id)
  }

  /** Under the unique indexes, an identifier designates at most one record. */
  lemma AccountForIsUnique(users: seq<User>, id: string, i: int, j: int)
    requires UniqueKeys(users)
    requires 0 <= i < |users| && 0 <= j < |users|
    requires IsAccountFor(users[i], id) && IsAccountFor(users[j], id)
    ensures i == j
  {
  }

  /** POST /register. The validators run in the order email, password,
      username and the first that fails decides the answer; then a local
      account with the same email or username makes the request fail; then the
      hashed password is saved in a record that takes the schema's defaults,
      and a token is signed over the saved username and email. The pre-check
      sees local accounts only, while the unique indexes span the whole
      collection, so a Google account that holds the email or the username
      makes `save()` reject the record after the pre-check passed. */
  method Register(store: UserCollection, crypto: Crypto, nodeEnv: string, issuedAt: nat,
                  email: string, password: string, username: string) returns (r: Response)
    requires store.Valid()
    modifies store
    ensures store.Valid()
    ensures !IsValidEmail(email) ==> r == BadRequest(InvalidEmail)
    ensures IsValidEmail(email) && !IsValidPassword(password) ==> r == BadRequest(InvalidPassword)
    ensures IsValidEmail(email) && IsValidPassword(password) && !IsValidUsername(username) ==>
              r == BadRequest(InvalidUsername)
    ensures r == BadRequest(UserAlreadyExists) <==>
              RegistrationFieldsValid(email, password, username) && LocalAccountExists(old(store.users), email, username)
    ensures RegistrationFieldsValid(email, password, username) && !LocalAccountExists(old(store.users), email, username) ==>
              r == match Insert(old(store.users), RegistrationDoc(email, username, crypto.hash(password, SaltRounds(nodeEnv))))
                   case Ok(u) => TokenIssued(crypto.sign(Claims(u.username, u.email), issuedAt))
                   case Err(e) => SaveRejected(e)
    ensures r.TokenIssued? <==> (&& RegistrationFieldsValid(email, password, username)
                                 && !Taken(old(store.users), EmailKey, email)
                                 && !Taken(old(store.users), UsernameKey, username)
                                 && crypto.hash(password, SaltRounds(nodeEnv)) != "")
    ensures r.TokenIssued? ==>
              && store.users == old(store.users)
                 + [User(email, crypto.hash(password, SaltRounds(nodeEnv)), username, None, RegularUser, Local, Active)]
              && r.token == crypto.sign(Claims(username, email), issuedAt)
    ensures !r.TokenIssued? ==> store.users == old(store.users)
    ensures r.SaveRejected? ==>
              RegistrationFieldsValid(email, password, username) && !LocalAccountExists(old(store.users), email, username)
    ensures r.SaveRejected? && r.error.DuplicateKey? ==>
              exists k | 0 <= k < |old(store.users)| ::
                && old(store.users)[k].accountType == Google
                && KeyOf(old(store.users)[k], r.error.key) == (if r.error.key == EmailKey then email else username)
  {
    if !IsValidEmail(email) {
      return BadRequest(InvalidEmail);
    }
    if !IsValidPassword(password) {
      return BadRequest(InvalidPassword);
    }
    if !IsValidUsername(username) {
      return BadRequest(InvalidUsername);
    }

    var user := FindOne(store.users, LocalByEmailOrUsername(email, username));
    if user.Some? {
      return BadRequest(UserAlreadyExists);
    }

    var numSaltRounds := SaltRounds(nodeEnv);
    var hashed := crypto.hash(password, numSaltRounds);
    var doc := RegistrationDoc(email, username, hashed);
    if hashed != "" {
      OmittedPathsTakeDefaults(email, username, hashed);
    }
    var saved := store.Save(doc);
    match saved
    case Err(e) =>
      r := SaveRejected(e);
    case Ok(savedUser) =>
      r := TokenIssued(crypto.sign(Claims(savedUser.username, savedUser.email), issuedAt));
  }

  /** POST /login. An invalid identifier is refused before any lookup; a
      valid one is looked up by its classified field among local accounts;
      the password is then compared with the stored hash, and a token is
      signed over the account's username and email. The collection is never
      changed. */
  method Login(store: UserCollection, crypto: Crypto, issuedAt: nat, emailOrUsername: string, password: string)
    returns (r: Response)
    requires store.Valid()
    ensures r == BadRequest(InvalidEmailOrUsername) <==> CheckEmailOrUsername(emailOrUsername) == Invalid
    ensures r == BadRequest(UserNotFound) <==>
              CheckEmailOrUsername(emailOrUsername) != Invalid && !HasAccount(store.users, emailOrUsername)
    ensures r == BadRequest(InvalidPassword) <==>
              exists k | 0 <= k < |store.users| ::
                IsAccountFor(store.users[k], emailOrUsername) && !crypto.compare(password, store.users[k].password)
    ensures r.TokenIssued? <==>
              exists k | 0 <= k < |store.users| ::
                IsAccountFor(store.users[k], emailOrUsername) && crypto.compare(password, store.users[k].password)
    ensures r.TokenIssued? ==>
              exists k | 0 <= k < |store.users| ::
                && IsAccountFor(store.users[k], emailOrUsername)
                && r.token == crypto.sign(Claims(store.users[k].username, store.users[k].email), issuedAt)
  {
    var kind := CheckEmailOrUsername(emailOrUsername);
    var user: Option<User> := None;

    if kind == Email {
      user := FindOne(store.users, LocalByEmail(emailOrUsername));
    } else if kind == Username {
      user := FindOne(store.users, LocalByUsername(emailOrUsername));
    } else {
      return BadRequest(InvalidEmailOrUsername);
    }
    assert user == FindOne(store.users, IdentifierQuery(kind, emailOrUsername));

    if user.None? {
      return BadRequest(UserNotFound);
    }
    ghost var found :| 0 <= found < |store.users| && store.users[found] == user.value
      && Matches(user.value, IdentifierQuery(kind, emailOrUsername));
    forall k | 0 <= k < |store.users| && IsAccountFor(store.users[k], emailOrUsername) ensures k == found {
      AccountForIsUnique(store.users, emailOrUsername, k, found);
    }

    var isMatch := crypto.compare(password, user.value.password);
    if !isMatch {
      return BadRequest(InvalidPassword);
    }
    r := TokenIssued(crypto.sign(Claims(user.value.username, user.value.email), issuedAt));
  }

  /** POST /forgot-password. The identifier is looked up like a login
      identifier, except that an invalid one is not refused on its own: no
      lookup is made, and the answer is the same as for an unknown account.
      The reset email itself is not sent. The collection is never changed. */
  method ForgotPassword(store: UserCollection, emailOrUsername: string) returns (r: Response)
    ensures r == Sent(ResetEmailSent) <==> HasAccount(store.users, emailOrUsername)
    ensures r != Sent(ResetEmailSent) ==> r == BadRequest(UserNotFound)
  {
    var kind := CheckEmailOrUsername(emailOrUsername);
    var user: Option<User> := None;

    if kind == Email {
      user := FindOne(store.users, LocalByEmail(emailOrUsername));
    } else if kind == Username {
      user := FindOne(store.users, LocalByUsername(emailOrUsername));
    }
    assert kind != Invalid ==> user == FindOne(store.users, IdentifierQuery(kind, emailOrUsername));

    if user.None? {
      return BadRequest(UserNotFound);
    }
    r := Sent(ResetEmailSent);
  }
}
