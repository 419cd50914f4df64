/** Request sequences against the routes, proved from the routes' contracts
    alone. bcrypt's promise that a password matches its own hash is not part
    of the routes; where a sequence needs it (or its failure for a wrong
    password), it is a precondition. */
module Scenarios {
  import opened Wrappers
  import opened Validators
  import opened UserModel
  import opened AuthRouter

  /** The sample email "a@b.com" is accepted: "a", "b" and "com" around the
      `@` and the `.`. */
  lemma SampleEmailIsValid()
    ensures IsValidEmail("a@b.com")
  {
    var e := "a@b.com";
    assert AllEmailAtoms(e[..1]) by { assert e[..1] == "a"; }
    assert AllEmailAtoms(e[2..3]) by { assert e[2..3] == "b"; }
    assert AllEmailAtoms(e[4..]) by { assert e[4..] == "com"; }
    assert EmailSplitAt(e, 1, 3);
  }

  /** The sample password "Abcdef1!" is accepted. */
  lemma SamplePasswordIsValid()
    ensures IsValidPassword("Abcdef1!")
  {
    var p := "Abcdef1!";
    assert InClass(p[6], Digit) && InClass(p[7], Special) && InClass(p[1], Lower) && InClass(p[0], Upper);
  }

  /** The sample registration "a@b.com" / "Abcdef1!" / "ab1" passes all three
      validators. */
  lemma SampleRegistrationIsValid()
    ensures RegistrationFieldsValid("a@b.com", "Abcdef1!", "ab1")
  {
    SampleEmailIsValid();
    SamplePasswordIsValid();
  }

  /** "!!!" is neither an email nor a username, so `/login` refuses it before
      any lookup. */
  lemma BangsAreInvalid()
    ensures CheckEmailOrUsername("!!!") == Invalid
  {
    assert !IsUsernameChar("!!!"[0]);
    EmailShapeIsRegex("!!!");
    assert Count("!!!", '@') == 0;
  }

  /** Registering and then logging in with the same password, by username or
      by email, returns a token signed over the registered username and email,
      stamped with the time of the login. */
  method RegisterThenLogin(store: UserCollection, crypto: Crypto, nodeEnv: string,
                           registeredAt: nat, loggedInAt: nat,
                           email: string, password: string, username: string)
    returns (registered: Response, byUsername: Response, byEmail: Response)
    requires store.Valid()
    requires crypto.compare(password, crypto.hash(password, SaltRounds(nodeEnv)))
    modifies store
    ensures registered.TokenIssued? ==>
              && registered == TokenIssued(crypto.sign(Claims(username, email), registeredAt))
              && byUsername == TokenIssued(crypto.sign(Claims(username, email), loggedInAt))
              && byEmail == TokenIssued(crypto.sign(Claims(username, email), loggedInAt))
  {
    registered := Register(store, crypto, nodeEnv, registeredAt, email, password, username);
    if registered.TokenIssued? {
      var last := |store.users| - 1;
      assert IsAccountFor(store.users[last], username);
      assert IsAccountFor(store.users[last], email);
      forall k | 0 <= k < |store.users| && IsAccountFor(store.users[k], username) ensures k == last {
        AccountForIsUnique(store.users, username, k, last);
      }
      forall k | 0 <= k < |store.users| && IsAccountFor(store.users[k], email) ensures k == last {
        AccountForIsUnique(store.users, email, k, last);
      }
    }
    byUsername := Login(store, crypto, loggedInAt, username, password);
    byEmail := Login(store, crypto, loggedInAt, email, password);
  }

  /** Logging in with a password that does not match the stored hash, after a
      successful registration, is answered with "Invalid password". */
  method RegisterThenWrongPassword(store: UserCollection, crypto: Crypto, nodeEnv: string, now: nat,
                                   email: string, password: string, username: string, wrong: string)
    returns (registered: Response, login: Response)
    requires store.Valid()
    requires !crypto.compare(wrong, crypto.hash(password, SaltRounds(nodeEnv)))
    modifies store
    ensures registered.TokenIssued? ==> login == BadRequest(InvalidPassword)
  {
    registered := Register(store, crypto, nodeEnv, now, email, password, username);
    if registered.TokenIssued? {
      var last := |store.users| - 1;
      assert IsAccountFor(store.users[last], username);
    }
    login := Login(store, crypto, now, username, wrong);
  }

  /** On a collection that holds only a Google account with "a@b.com", the
      sample registration passes the validators and the local-only pre-check,
      and is then rejected by `save()` on the email index (or on the password
      path, were the hash empty). Nothing is stored. */
  method GoogleAccountBlocksRegistration(store: UserCollection, crypto: Crypto, nodeEnv: string, now: nat)
    returns (r: Response)
    requires store.users == [User("a@b.com", "x", "gg", None, RegularUser, Google, Active)]
    modifies store
    ensures r.SaveRejected?
    ensures crypto.hash("Abcdef1!", SaltRounds(nodeEnv)) != "" ==> r == SaveRejected(DuplicateKey(EmailKey))
    ensures store.users == old(store.users)
  {
    SampleRegistrationIsValid();
    GoogleAccountDefeatsPreCheck();
    var hashed := crypto.hash("Abcdef1!", SaltRounds(nodeEnv));
    if hashed != "" {
      OmittedPathsTakeDefaults("a@b.com", "ab1", hashed);
      assert KeyOf(store.users[0], EmailKey) == "a@b.com";
    } else {
      assert !PathValid(WithDefaults(RegistrationDoc("a@b.com", "ab1", hashed)), PasswordPath);
    }
    r := Register(store, crypto, nodeEnv, now, "a@b.com", "Abcdef1!", "ab1");
  }

  /** A reset request for "nouser" on an empty collection is answered with
      "User not found". */
  method ResetUnknownAccount() returns (r: Response)
    ensures r == BadRequest(UserNotFound)
  {
    var store := new UserCollection();
    r := ForgotPassword(store, "nouser");
  }

  /** The same registration submitted twice: once the first succeeds, the
      second is refused as a duplicate and changes nothing. */
  method RegisterTwice(store: UserCollection, crypto: Crypto, nodeEnv: string, now: nat,
                       email: string, password: string, username: string)
    returns (first: Response, second: Response)
    requires store.Valid()
    modifies store
    ensures first.TokenIssued? ==> second == BadRequest(UserAlreadyExists)
    ensures first.TokenIssued? ==> |store.users| == |old(store.users)| + 1
  {
    first := Register(store, crypto, nodeEnv, now, email, password, username);
    if first.TokenIssued? {
      var last := |store.users| - 1;
      assert Matches(store.users[last], LocalByEmailOrUsername(email, username));
    }
    second := Register(store, crypto, nodeEnv, now, email, password, username);
  }

  /** After a registration, a password reset for its username or its email
      is answered with "Password reset email sent". */
  method RegisterThenForgotPassword(store: UserCollection, crypto: Crypto, nodeEnv: string, now: nat,
                                    email: string, password: string, username: string)
    returns (registered: Response, byUsername: Response, byEmail: Response)
    requires store.Valid()
    modifies store
    ensures registered.TokenIssued? ==> byUsername == Sent(ResetEmailSent) && byEmail == Sent(ResetEmailSent)
  {
    registered := Register(store, crypto, nodeEnv, now, email, password, username);
    if registered.TokenIssued? {
      var last := |store.users| - 1;
      assert IsAccountFor(store.users[last], username);
      assert IsAccountFor(store.users[last], email);
    }
    byUsername := ForgotPassword(store, username);
    byEmail := ForgotPassword(store, email);
  }
}
