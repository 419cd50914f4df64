/** The `user` schema of server/models/user.mjs and the `users` collection it
    is stored in: enumerated paths with defaults, required string paths, and
    collection-wide unique indexes on `email` and on `username`. */
module UserModel {
  import opened Wrappers

  /** `role`: one of 'admin', 'user'. */
  datatype Role = Admin | RegularUser

  /** `accountType`: one of 'google', 'local'. */
  datatype AccountType = Google | Local

  /** `accountStatus`: one of 'active', 'inactive'. */
  datatype AccountStatus = Active | Inactive

  function RoleName(r: Role): string {
    match r
    case Admin => "admin"
    case RegularUser => "user"
  }

  function AccountTypeName(t: AccountType): string {
    match t
    case Google => "google"
    case Local => "local"
  }

  function AccountStatusName(st: AccountStatus): string {
    match st
    case Active => "active"
    case Inactive => "inactive"
  }

  /** The enum validator of `role`: a string is accepted exactly when it is
      the name of a role, and then it denotes that role. */
  function ParseRole(s: string): (r: Option<Role>)
    ensures forall x :: r == Some(x) <==> RoleName(x) == s
  {
    if s == "admin" then Some(Admin)
    else if s == "user" then Some(RegularUser)
    else None
  }

  /** The enum validator of `accountType`. */
  function ParseAccountType(s: string): (r: Option<AccountType>)
    ensures forall x :: r == Some(x) <==> AccountTypeName(x) == s
  {
    if s == "google" then Some(Google)
    else if s == "local" then Some(Local)
    else None
  }

  /** The enum validator of `accountStatus`. */
  function ParseAccountStatus(s: string): (r: Option<AccountStatus>)
    ensures forall x :: r == Some(x) <==> AccountStatusName(x) == s
  {
    if s == "active" then Some(Active)
    else if s == "inactive" then Some(Inactive)
    else None
  }

  /** A stored user record (the timestamps are not modelled). */
  datatype User = User(
    email: string,
    password: string,
    username: string,
    name: Option<string>,
    role: Role,
    accountType: AccountType,
    accountStatus: AccountStatus)

  /** The fields given to `new User({...})`: any path may be omitted, and the
      enumerated paths hold raw strings until they are validated. */
  datatype UserDoc = UserDoc(
    email: Option<string>,
    password: Option<string>,
    username: Option<string>,
    name: Option<string>,
    role: Option<string>,
    accountType: Option<string>,
    accountStatus: Option<string>)

  /** The schema paths that carry a validator (`name` has none). */
  datatype Path = EmailPath | PasswordPath | UsernamePath | RolePath | AccountTypePath | AccountStatusPath

  /** The document with each omitted enumerated path set to its default:
      'user', 'local' and 'active'. */
  function WithDefaults(doc: UserDoc): UserDoc {
    doc.(role := Some(doc.role.GetOr("user")),
         accountType := Some(doc.accountType.GetOr("local")),
         accountStatus := Some(doc.accountStatus.GetOr("active")))
  }

  /** The `required` validator of a String path: the value is present and is
      not the empty string. */
  predicate Present(v: Option<string>) {
    v.Some? && v.value != ""
  }

  /** Whether path `p` of `doc` passes its validators: `required` on every
      path listed, and `enum` on the three enumerated ones. */
  predicate PathValid(doc: UserDoc, p: Path) {
    match p
    case EmailPath => Present(doc.email)
    case PasswordPath => Present(doc.password)
    case UsernamePath => Present(doc.username)
    case RolePath => Present(doc.role) && ParseRole(doc.role.value).Some?
    case AccountTypePath => Present(doc.accountType) && ParseAccountType(doc.accountType.value).Some?
    case AccountStatusPath => Present(doc.accountStatus) && ParseAccountStatus(doc.accountStatus.value).Some?
  }

  /** A stored record satisfies the `required` validators. */
  predicate WellFormed(u: User) {
    u.email != "" && u.password != "" && u.username != ""
  }

  /** The document that holds every field of `u`. */
  function ToDoc(u: User): UserDoc {
    UserDoc(Some(u.email), Some(u.password), Some(u.username), u.name,
            Some(RoleName(u.role)), Some(AccountTypeName(u.accountType)), Some(AccountStatusName(u.accountStatus)))
  }

  /** The error set of path `p`: empty when it passes its validators. */
  function Failing(doc: UserDoc, p: Path): set<Path> {
    if PathValid(doc, p) then {} else {p}
  }

  /** Builds the record that `save()` would store: defaults are applied, then
      every path is validated; the result is the record, or the set of paths
      whose validators failed (mongoose reports all of them together). A built
      record keeps every supplied value and the default of every omitted one. */
  function Build(doc: UserDoc): (r: Result<User, set<Path>>)
    ensures r.Ok? <==> forall p :: PathValid(WithDefaults(doc), p)
    ensures r.Err? ==> forall p :: p in r.error <==> !PathValid(WithDefaults(doc), p)
    ensures r.Ok? ==> WellFormed(r.value) && ToDoc(r.value) == WithDefaults(doc)
  {
    var d := WithDefaults(doc);
    var errors := Failing(d, EmailPath) + Failing(d, PasswordPath) + Failing(d, UsernamePath)
      + Failing(d, RolePath) + Failing(d, AccountTypePath) + Failing(d, AccountStatusPath);
    if errors != {} then Err(errors)
    else
      Ok(User(d.email.value, d.password.value, d.username.value, d.name,
              ParseRole(d.role.value).value,
              ParseAccountType(d.accountType.value).value,
              ParseAccountStatus(d.accountStatus.value).value))
  }

  /** Building the full document of a well-formed record gives that record
      back. */
  lemma BuildToDoc(u: User)
    requires WellFormed(u)
    ensures Build(ToDoc(u)) == Ok(u)
  {
  }

  /** A document that gives only `email`, `username` and `password` (all
      non-empty) builds a record with no name, role 'user', account type
      'local' and status 'active'. */
  lemma OmittedPathsTakeDefaults(email: string, username: string, password: string)
    requires email != "" && username != "" && password != ""
    ensures Build(UserDoc(Some(email), Some(password), Some(username), None, None, None, None))
         == Ok(User(email, password, username, None, RegularUser, Local, Active))
  {
  }

  // ---------------------------------------------------------------------------
  // The `users` collection
  // ---------------------------------------------------------------------------

  /** The two unique indexes. */
  datatype Key = EmailKey | UsernameKey

  function KeyOf(u: User, key: Key): string {
    match key
    case EmailKey => u.email
    case UsernameKey => u.username
  }

  /** The collection-wide uniqueness of both indexes, whatever the account
      type of the records. */
  ghost predicate UniqueKeys(users: seq<User>) {
    forall i, j | 0 <= i < j < |users| ::
      users[i].email != users[j].email && users[i].username != users[j].username
  }

  /** Some record already holds `value` under the index `key`. */
  predicate Taken(users: seq<User>, key: Key, value: string) {
    exists k | 0 <= k < |users| :: KeyOf(users[k], key) == value
  }

  /** Why `save()` rejects a document. */
  datatype SaveError = ValidationError(paths: set<Path>) | DuplicateKey(key: Key)

  /** What `save()` does with `doc` against the records `users`: validation
      first, then the unique indexes in declaration order (`email`, then
      `username`). */
  function Insert(users: seq<User>, doc: UserDoc): (r: Result<User, SaveError>)
    ensures r.Ok? <==> (&& Build(doc).Ok?
                        && !Taken(users, EmailKey, Build(doc).value.email)
                        && !Taken(users, UsernameKey, Build(doc).value.username))
    ensures r.Ok? ==> r.value == Build(doc).value
    ensures r.Ok? && UniqueKeys(users) ==> UniqueKeys(users + [r.value])
    ensures r.Err? && r.error.ValidationError? ==> Build(doc) == Err(r.error.paths)
    ensures r.Err? && r.error.DuplicateKey? ==>
              Build(doc).Ok? && Taken(users, r.error.key, KeyOf(Build(doc).value, r.error.key))
  {
    match Build(doc)
    case Err(paths) => Err(ValidationError(paths))
    case Ok(u) =>
      if Taken(users, EmailKey, u.email) then Err(DuplicateKey(EmailKey))
      else if Taken(users, UsernameKey, u.username) then Err(DuplicateKey(UsernameKey))
      else Ok(u)
  }

  /** The restrictions of a lookup: every query is scoped to local accounts. */
  datatype Query =
    | LocalByEmail(email: string)
    | LocalByUsername(username: string)
    | LocalByEmailOrUsername(email: string, username: string)

  /** Equality matching of a record against a query. */
  predicate Matches(u: User, q: Query) {
    && u.accountType == Local
    && match q
       case LocalByEmail(e) => u.email == e
       case LocalByUsername(n) => u.username == n
       case LocalByEmailOrUsername(e, n) => u.email == e || u.username == n
  }

  /** `findOne`: the first record in collection order that matches `q`, or
      nothing when no record does. */
  function FindOne(users: seq<User>, q: Query): (r: Option<User>)
    ensures r.None? <==> forall k | 0 <= k < |users| :: !Matches(users[k], q)
    ensures r.Some? ==> exists k | 0 <= k < |users| ::
              users[k] == r.value && Matches(users[k], q) && forall m | 0 <= m < k :: !Matches(users[m], q)
  {
    if users == [] then None
    else if Matches(users[0], q) then Some(users[0])
    else
      var r := FindOne(users[1..], q);
      assert forall k | 0 < k < |users| :: users[k] == users[1..][k - 1];
      r
  }

  /** The `users` collection, updated in place by `save()`. */
  class UserCollection {
    var users: seq<User>

    /** The unique indexes hold and every record passed validation. */
    ghost predicate Valid()
      reads this
    {
      UniqueKeys(users) && forall k | 0 <= k < |users| :: WellFormed(users[k])
    }

    constructor ()
      ensures Valid() && users == []
    {
      users := [];
    }

    /** `new User(doc).save()`: the record is appended when it passes
        validation and violates no unique index; otherwise nothing changes. */
    method Save(doc: UserDoc) returns (r: Result<User, SaveError>)
      requires Valid()
      modifies this
      ensures Valid()
      ensures r == Insert(old(users), doc)
      ensures users == if r.Ok? then old(users) + [r.value] else old(users)
    {
      r := Insert(users, doc);
      if r.Ok? {
        users := users + [r.value];
      }
    }
  }
}
