/** Users of the system (the `users` table): their role, the columns a row
    must carry, the defaults filled in on insert, and the uniqueness of
    e-mail address and user name. */
module UserModel {
  import opened Base

  /** The three roles; permission checks compare against these. */
  datatype Role = Admin | QA | Analyst

  /** The role a user gets when none is given. */
  const DefaultRole: Role := Analyst

  /** The string each role is sent as in request and response bodies (its
      enum value). The database column holds the member name instead. */
  function RoleValue(r: Role): string
  {
    match r
    case Admin => "admin"
    case QA => "qa"
    case Analyst => "analyst"
  }

  /** Reading a role from a request body: exactly the three role values are
      accepted, each as the role it is the value of. */
  function ParseRole(s: string): (r: Option<Role>)
    ensures r.Some? ==> RoleValue(r.value) == s
    ensures forall role :: RoleValue(role) == s ==> r == Some(role)
    ensures r.Some? <==> s in {"admin", "qa", "analyst"}
  {
    if s == "admin" then Some(Admin)
    else if s == "qa" then Some(QA)
    else if s == "analyst" then Some(Analyst)
    else None
  }

  /** One row of `users`. `email`, `username`, `hashed_password` and `role`
      are NOT NULL; `full_name` and `last_login` may be absent. */
  datatype User = User(
    id: int,
    email: string,
    username: string,
    hashedPassword: string,
    fullName: Option<string>,
    role: Role,
    isActive: bool,
    createdAt: Timestamp,
    lastLogin: Option<Timestamp>)

  /** The table and the next value of its primary-key sequence. */
  datatype UserTable = UserTable(rows: map<int, User>, nextId: int)

  predicate EmailInUse(rows: map<int, User>, email: string)
  {
    exists k :: k in rows && rows[k].email == email
  }

  predicate UsernameInUse(rows: map<int, User>, username: string)
  {
    exists k :: k in rows && rows[k].username == username
  }

  /** Every row is stored under its own key, the key sequence is ahead of
      every key, and no two rows share an e-mail address or a user name. */
  predicate ValidUsers(t: UserTable)
  {
    && (forall k :: k in t.rows ==> t.rows[k].id == k && k < t.nextId)
    && (forall a, b :: a in t.rows && b in t.rows && a != b ==>
          t.rows[a].email != t.rows[b].email && t.rows[a].username != t.rows[b].username)
  }

  /** The unique constraints reject the insert. */
  datatype UserError = IntegrityError

  /** Inserting a user: the row gets the next key, the caller's columns,
      role ANALYST and `is_active` true unless given, and the insert time as
      `created_at`; it is refused when the e-mail address or user name is
      already taken, and then nothing is stored. */
  function CreateUser(
    t: UserTable,
    email: string,
    username: string,
    hashedPassword: string,
    fullName: Option<string>,
    role: Option<Role>,
    isActive: Option<bool>,
    now: Timestamp
  ): (r: Result<(UserTable, User), UserError>)
    ensures r.Ok? <==> !EmailInUse(t.rows, email) && !UsernameInUse(t.rows, username)
    ensures r.Ok? ==>
      var (t', u) := r.value;
      && u.email == email && u.username == username && u.hashedPassword == hashedPassword
      && u.fullName == fullName && u.createdAt == now && u.lastLogin == None
      && (role.None? ==> u.role == Analyst)
      && (role.Some? ==> u.role == role.value)
      && (isActive.None? ==> u.isActive)
      && (isActive.Some? ==> u.isActive == isActive.value)
      && t'.rows == t.rows[u.id := u]
    ensures r.Ok? && ValidUsers(t) ==> r.value.1.id !in t.rows && ValidUsers(r.value.0)
  {
    if EmailInUse(t.rows, email) || UsernameInUse(t.rows, username) then
      Err(IntegrityError)
    else
      var u := User(t.nextId, email, username, hashedPassword, fullName,
                    if role.Some? then role.value else DefaultRole,
                    if isActive.Some? then isActive.value else true,
                    now, None);
      Ok((UserTable(t.rows[u.id := u], t.nextId + 1), u))
  }

  /** In a valid table an e-mail address, and likewise a user name,
      identifies at most one user. */
  lemma LoginsIdentifyUsers(t: UserTable, a: int, b: int)
    requires ValidUsers(t) && a in t.rows && b in t.rows
    requires t.rows[a].email == t.rows[b].email || t.rows[a].username == t.rows[b].username
    ensures a == b
  {
  }
}
