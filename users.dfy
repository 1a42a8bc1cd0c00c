/** app/routers/user.py: registration with a hashed password, and public lookup by id. */
module Users {
  import opened Wrappers
  import opened Schemas
  import opened Crypto
  import opened Models

  /** The UserOut view of a row: id, email and creation time. */
  function PublicUser(u: User): UserOut
  {
    UserOut(u.id, u.email, u.createdAt)
  }

  /** The public view does not depend on the stored password at all. */
  lemma PublicUserHidesPassword(u: User, other: string)
    ensures PublicUser(u) == PublicUser(u.(password := other))
    ensures PublicUser(u).id == u.id && PublicUser(u).email == u.email
  {
  }

  /** create_user as a transition: the row stores the bcrypt digest of the submitted password. */
  function CreateUserSpec(db: Db, h: Hasher, salt: string, form: UserCreate, now: int): (Db, Result<UserOut, Error>)
  {
    var (db', r) := InsertUser(db, form.email, h.hash(form.password, salt), now);
    (db', if r.Ok? then Ok(PublicUser(r.value)) else Err(r.error))
  }

  /** get_user: the public view of the user with that id, or 404. */
  function GetUser(users: map<int, User>, id: int): (r: Result<UserOut, Error>)
    ensures r.Err? <==> id !in users
    ensures r.Err? ==> r.error == NotFound
    ensures r.Ok? ==> r.value == PublicUser(users[id])
  {
    if id in users then Ok(PublicUser(users[id])) else Err(NotFound)
  }

  /** A new email is registered: the stored password is the digest, and the user can be fetched back. */
  lemma RegisterStoresDigest(db: Db, h: Hasher, salt: string, form: UserCreate, now: int)
    requires Consistent(db) && !EmailTaken(db.users, form.email)
    ensures var (db', r) := CreateUserSpec(db, h, salt, form, now);
      && Consistent(db') && r.Ok?
      && r.value.id in db'.users && r.value.id !in db.users
      && db'.users[r.value.id].email == form.email
      && db'.users[r.value.id].password == h.hash(form.password, salt)
      && GetUser(db'.users, r.value.id) == r
  {
    InsertUserConsistent(db, form.email, h.hash(form.password, salt), now);
  }

  /** A taken email fails on the unique constraint and adds no user. */
  lemma RegisterDuplicateEmail(db: Db, h: Hasher, salt: string, form: UserCreate, now: int)
    requires Consistent(db) && EmailTaken(db.users, form.email)
    ensures var (db', r) := CreateUserSpec(db, h, salt, form, now);
      && Consistent(db')
      && r == Err(ServerError(UniqueViolation))
      && db'.users == db.users && db'.posts == db.posts && db'.votes == db.votes
  {
    InsertUserConsistent(db, form.email, h.hash(form.password, salt), now);
  }

  /** create_user: hashes the password into the request record, inserts it, answers with the public view. */
  method CreateUser(s: Store, h: Hasher, salt: string, form: UserCreate, now: int) returns (r: Result<UserOut, Error>)
    requires s.Valid()
    modifies s
    ensures s.Valid()
    ensures (s.State(), r) == CreateUserSpec(old(s.State()), h, salt, form, now)
  {
    var user := form;
    var hashed := h.hash(user.password, salt);
    user := user.(password := hashed);
    var inserted := s.AddUser(user.email, user.password, now);
    r := if inserted.Ok? then Ok(PublicUser(inserted.value)) else Err(inserted.error);
  }
}
