/** app/routers/auth.py: the resource-owner password grant (section 4.3 of RFC 6749). */
module Auth {
  import opened Wrappers
  import opened Schemas
  import opened Crypto
  import opened Models
  import opened Ordering
  import opened OAuth2
  import Users

  /** The first of `ids`, in the order given, whose user has that email. */
  function FirstWithEmail(users: map<int, User>, ids: seq<int>, email: string): (r: Option<User>)
    requires forall i :: 0 <= i < |ids| ==> ids[i] in users
    ensures r.Some? ==> r.value.email == email && exists i :: 0 <= i < |ids| && users[ids[i]] == r.value
    ensures r.None? <==> forall i :: 0 <= i < |ids| ==> users[ids[i]].email != email
  {
    if ids == [] then None
    else if users[ids[0]].email == email then Some(users[ids[0]])
    else FirstWithEmail(users, ids[1..], email)
  }

  /**
   * `query(User).filter(email == ..).first()`: a user with that email, if any. The query has no
   * ORDER BY, so which row comes first is the database's choice; scanning in ascending id is only
   * how the model picks one. Under unique emails there is at most one (UserByEmailUnique).
   */
  function UserByEmail(users: map<int, User>, email: string): (r: Option<User>)
    ensures r.None? <==> !EmailTaken(users, email)
    ensures r.Some? ==> r.value.email == email && exists id :: id in users && users[id] == r.value
  {
    var ids := SortedIds(users.Keys);
    assert forall i :: 0 <= i < |ids| ==> ids[i] in users by {
      forall i | 0 <= i < |ids| ensures ids[i] in users { assert ids[i] in ids; }
    }
    var r := FirstWithEmail(users, ids, email);
    assert r.None? ==> !EmailTaken(users, email) by {
      if r.None? {
        forall id | id in users ensures users[id].email != email {
          assert id in ids;
          var i :| 0 <= i < |ids| && ids[i] == id;
        }
      }
    }
    r
  }

  /** With unique emails, the user found is the one row holding that email. */
  lemma UserByEmailUnique(users: map<int, User>, id: int)
    requires UniqueEmails(users) && id in users
    ensures UserByEmail(users, users[id].email) == Some(users[id])
  {
  }

  /** login: an unknown email and a wrong password give the same 403; success issues a bearer token. */
  function Login(users: map<int, User>, h: Hasher, jwt: JwtCodec, ttl: int,
                 username: string, password: string, now: int): (r: Result<Token, Error>)
    ensures r.Err? ==> r.error == InvalidCredentials
    ensures r.Ok? ==> r.value.tokenType == "bearer"
    ensures r.Ok? ==> exists id :: id in users && users[id].email == username && h.verify(password, users[id].password)
  {
    match UserByEmail(users, username)
    case None => Err(InvalidCredentials)
    case Some(u) =>
      if !h.verify(password, u.password) then Err(InvalidCredentials)
      else Ok(Token(CreateAccessToken(jwt, ttl, map[UserIdClaim := Num(u.id)], now), "bearer"))
  }

  /** An email no user has is refused with the invalid-credentials error. */
  lemma LoginUnknownEmail(users: map<int, User>, h: Hasher, jwt: JwtCodec, ttl: int,
                          username: string, password: string, now: int)
    requires !EmailTaken(users, username)
    ensures Login(users, h, jwt, ttl, username, password, now) == Err(InvalidCredentials)
  {
  }

  /** A known email with a password that does not verify is refused with the very same error. */
  lemma LoginWrongPassword(users: map<int, User>, h: Hasher, jwt: JwtCodec, ttl: int,
                           id: int, password: string, now: int)
    requires UniqueEmails(users) && id in users && !h.verify(password, users[id].password)
    ensures Login(users, h, jwt, ttl, users[id].email, password, now) == Err(InvalidCredentials)
  {
    UserByEmailUnique(users, id);
  }

  /** A stored email with a password that verifies against its digest logs in. */
  lemma LoginAcceptsValidCredentials(users: map<int, User>, h: Hasher, jwt: JwtCodec, ttl: int,
                                     id: int, password: string, now: int)
    requires UniqueEmails(users) && id in users && h.verify(password, users[id].password)
    ensures Login(users, h, jwt, ttl, users[id].email, password, now)
         == Ok(Token(CreateAccessToken(jwt, ttl, map[UserIdClaim := Num(users[id].id)], now), "bearer"))
  {
    UserByEmailUnique(users, id);
  }

  /** A successful login issues a token for the matched user: it verifies to that user's id until it expires. */
  lemma LoginTokenNamesUser(db: Db, h: Hasher, jwt: JwtCodec, ttl: int,
                            username: string, password: string, issued: int, now: int)
    requires Consistent(db) && IssuedTokensRoundTrip(jwt)
    requires Login(db.users, h, jwt, ttl, username, password, issued).Ok?
    requires now <= issued + ttl
    ensures var token := Login(db.users, h, jwt, ttl, username, password, issued).value.accessToken;
      var r := GetCurrentUser(db.users, jwt, token, now);
      r.Ok? && r.value.email == username && h.verify(password, r.value.password)
  {
    var u := UserByEmail(db.users, username).value;
    IssuedTokenVerifies(jwt, ttl, u.id, issued, now);
  }

  /**
   * Registering and then logging in with the same credentials yields a token that resolves to that
   * user. The body of a registration passes EmailStr, whose `normalize` (lower-cased domain, no
   * surrounding blanks) gives the stored address; login compares the raw form username with it,
   * so this holds for addresses that are already in normal form.
   */
  lemma RegisterThenLogin(db: Db, h: Hasher, salt: string, jwt: JwtCodec, ttl: int,
                          normalize: string -> string, email: string, password: string,
                          created: int, issued: int, now: int)
    requires Consistent(db) && SoundHasher(h) && IssuedTokensRoundTrip(jwt)
    requires normalize(email) == email
    requires !EmailTaken(db.users, normalize(email))
    requires now <= issued + ttl
    ensures var (db', reg) := Users.CreateUserSpec(db, h, salt, UserCreate(normalize(email), password), created);
      var login := Login(db'.users, h, jwt, ttl, email, password, issued);
      && reg.Ok? && login.Ok?
      && GetCurrentUser(db'.users, jwt, login.value.accessToken, now).Ok?
      && GetCurrentUser(db'.users, jwt, login.value.accessToken, now).value.id == reg.value.id
      && GetCurrentUser(db'.users, jwt, login.value.accessToken, now).value.email == email
  {
    var form := UserCreate(normalize(email), password);
    Users.RegisterStoresDigest(db, h, salt, form, created);
    var (db', reg) := Users.CreateUserSpec(db, h, salt, form, created);
    var id := reg.value.id;
    assert h.verify(form.password, h.hash(form.password, salt));
    UserByEmailUnique(db'.users, id);
    IssuedTokenVerifies(jwt, ttl, id, issued, now);
  }

  /**
   * Login as written: an address registered as "a@B.com" is stored as "a@b.com", and logging in
   * with the very address typed at registration is refused.
   */
  lemma MixedCaseEmailLoginRefused(normalize: string -> string, h: Hasher, salt: string, jwt: JwtCodec,
                                   ttl: int, password: string, created: int, issued: int)
    requires normalize("a@B.com") == "a@b.com"
    ensures var (db', reg) := Users.CreateUserSpec(EmptyDb, h, salt, UserCreate(normalize("a@B.com"), password), created);
      && reg.Ok?
      && Login(db'.users, h, jwt, ttl, "a@B.com", password, issued) == Err(InvalidCredentials)
  {
    EmptyConsistent();
    var form := UserCreate(normalize("a@B.com"), password);
    Users.RegisterStoresDigest(EmptyDb, h, salt, form, created);
    var (db', reg) := Users.CreateUserSpec(EmptyDb, h, salt, form, created);
    assert db'.users.Keys == {reg.value.id};
    assert "a@b.com" != "a@B.com" by { assert "a@b.com"[2] != "a@B.com"[2]; }
    LoginUnknownEmail(db'.users, h, jwt, ttl, "a@B.com", password, issued);
  }

  /** login with the form username passed through the same normalisation as the stored address. */
  function LoginNormalized(users: map<int, User>, normalize: string -> string, h: Hasher, jwt: JwtCodec, ttl: int,
                           username: string, password: string, now: int): (r: Result<Token, Error>)
    ensures r.Err? ==> r.error == InvalidCredentials
    ensures r.Ok? ==> exists id :: id in users && users[id].email == normalize(username) && h.verify(password, users[id].password)
  {
    Login(users, h, jwt, ttl, normalize(username), password, now)
  }

  /** With the username normalised, registering then logging in succeeds for every address. */
  lemma RegisterThenLoginNormalized(db: Db, h: Hasher, salt: string, jwt: JwtCodec, ttl: int,
                                    normalize: string -> string, email: string, password: string,
                                    created: int, issued: int, now: int)
    requires Consistent(db) && SoundHasher(h) && IssuedTokensRoundTrip(jwt)
    requires normalize(normalize(email)) == normalize(email)
    requires !EmailTaken(db.users, normalize(email))
    requires now <= issued + ttl
    ensures var (db', reg) := Users.CreateUserSpec(db, h, salt, UserCreate(normalize(email), password), created);
      var login := LoginNormalized(db'.users, normalize, h, jwt, ttl, email, password, issued);
      && reg.Ok? && login.Ok?
      && GetCurrentUser(db'.users, jwt, login.value.accessToken, now).Ok?
      && GetCurrentUser(db'.users, jwt, login.value.accessToken, now).value.id == reg.value.id
  {
    RegisterThenLogin(db, h, salt, jwt, ttl, normalize, normalize(email), password, created, issued, now);
  }
}
