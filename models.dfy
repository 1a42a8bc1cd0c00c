/**
 * The three tables of app/models.py, the constraints PostgreSQL enforces on them (unique email,
 * required owner, composite vote key, ON DELETE CASCADE), and the store that holds them.
 */
module Models {
  import opened Wrappers
  import opened Schemas

  /** A row of `users`; `createdAt` is the server's now() as an opaque instant. */
  datatype User = User(id: int, email: string, password: string, createdAt: int)

  /** A row of `posts`. */
  datatype Post = Post(id: int, title: string, content: string, published: bool, createdAt: int, ownerId: int)

  /** A row of `votes`: the composite primary key is the whole row. */
  datatype VoteKey = VoteKey(userId: int, postId: int)

  /** The contents of the database: the three tables and the two id sequences. */
  datatype Db = Db(
    users: map<int, User>,
    posts: map<int, Post>,
    votes: set<VoteKey>,
    nextUserId: int,
    nextPostId: int)

  /** A fresh database: empty tables, SERIAL sequences starting at 1. */
  const EmptyDb: Db := Db(map[], map[], {}, 1, 1)

  /** The unique constraint on users.email. */
  predicate UniqueEmails(users: map<int, User>)
  {
    forall a, b :: a in users && b in users && users[a].email == users[b].email ==> a == b
  }

  /**
   * What the schema guarantees of every reachable state: rows are keyed by their id and lie below
   * their sequence, emails are unique, every post's owner exists and no vote dangles.
   */
  ghost predicate Consistent(db: Db)
  {
    && (forall id :: id in db.users ==> db.users[id].id == id && id < db.nextUserId)
    && UniqueEmails(db.users)
    && (forall id :: id in db.posts ==>
          db.posts[id].id == id && id < db.nextPostId && db.posts[id].ownerId in db.users)
    && (forall v :: v in db.votes ==> v.userId in db.users && v.postId in db.posts)
  }

  predicate EmailTaken(users: map<int, User>, email: string)
  {
    exists id :: id in users && users[id].email == email
  }

  /** The posts a user owns. */
  function OwnedBy(posts: map<int, Post>, userId: int): set<int>
  {
    set id | id in posts && posts[id].ownerId == userId
  }

  /** INSERT INTO users: the id is drawn from the sequence first, then the unique index is checked. */
  function InsertUser(db: Db, email: string, passwordHash: string, now: int): (Db, Result<User, Error>)
  {
    var id := db.nextUserId;
    if EmailTaken(db.users, email) then
      (db.(nextUserId := id + 1), Err(ServerError(UniqueViolation)))
    else
      var u := User(id, email, passwordHash, now);
      (db.(users := db.users[id := u], nextUserId := id + 1), Ok(u))
  }

  /** INSERT INTO posts: the id is drawn first, then the foreign key to users is checked. */
  function InsertPost(db: Db, ownerId: int, p: PostCreate, now: int): (Db, Result<Post, Error>)
  {
    var id := db.nextPostId;
    if ownerId !in db.users then
      (db.(nextPostId := id + 1), Err(ServerError(ForeignKeyViolation)))
    else
      var post := Post(id, p.title, p.content, p.published, now, ownerId);
      (db.(posts := db.posts[id := post], nextPostId := id + 1), Ok(post))
  }

  /** INSERT INTO votes: the primary key is checked before the two foreign keys. */
  function InsertVote(db: Db, k: VoteKey): (Db, Result<(), Error>)
  {
    if k in db.votes then (db, Err(ServerError(UniqueViolation)))
    else if k.userId !in db.users || k.postId !in db.posts then (db, Err(ServerError(ForeignKeyViolation)))
    else (db.(votes := db.votes + {k}), Ok(()))
  }

  /** DELETE FROM votes WHERE user_id = .. AND post_id = ..: removes the row if there is one. */
  function DeleteVoteRow(db: Db, k: VoteKey): Db
  {
    db.(votes := db.votes - {k})
  }

  /** UPDATE posts SET title, content, published WHERE id = ..: a missing id updates nothing. */
  function UpdatePostRow(db: Db, id: int, p: PostCreate): Db
  {
    if id !in db.posts then db
    else db.(posts := db.posts[id := db.posts[id].(title := p.title, content := p.content, published := p.published)])
  }

  /** DELETE FROM posts WHERE id = ..: the votes on it go with it (ON DELETE CASCADE). */
  function DeletePostRow(db: Db, id: int): Db
  {
    db.(posts := db.posts - {id}, votes := set v | v in db.votes && v.postId != id)
  }

  /** DELETE FROM users WHERE id = ..: cascades to the user's posts, their votes and the user's votes. */
  function DeleteUserRow(db: Db, id: int): Db
  {
    var owned := OwnedBy(db.posts, id);
    db.(users := db.users - {id},
        posts := db.posts - owned,
        votes := set v | v in db.votes && v.userId != id && v.postId !in owned)
  }

  /** The empty database is consistent. */
  lemma EmptyConsistent()
    ensures Consistent(EmptyDb)
  {
  }

  /** Registration keeps emails unique: a taken email adds no user; a new one adds exactly one. */
  lemma InsertUserConsistent(db: Db, email: string, passwordHash: string, now: int)
    requires Consistent(db)
    ensures var (db', r) := InsertUser(db, email, passwordHash, now);
      && Consistent(db')
      && (r.Ok? <==> !EmailTaken(db.users, email))
      && (r.Err? ==> r.error == ServerError(UniqueViolation) && db'.users == db.users)
      && (r.Ok? ==> r.value.id !in db.users && db'.users == db.users[r.value.id := r.value]
                    && r.value.email == email && r.value.password == passwordHash)
      && db'.posts == db.posts && db'.votes == db.votes
  {
    var (db', r) := InsertUser(db, email, passwordHash, now);
    if r.Ok? {
      assert forall b :: b in db.users ==> db.users[b].email != email;
    }
  }

  /** A post is inserted exactly when its owner exists, with that owner and a fresh id. */
  lemma InsertPostConsistent(db: Db, ownerId: int, p: PostCreate, now: int)
    requires Consistent(db)
    ensures var (db', r) := InsertPost(db, ownerId, p, now);
      && Consistent(db')
      && (r.Ok? <==> ownerId in db.users)
      && (r.Err? ==> r.error == ServerError(ForeignKeyViolation) && db'.posts == db.posts)
      && (r.Ok? ==> r.value.id !in db.posts && db'.posts == db.posts[r.value.id := r.value]
                    && r.value.ownerId == ownerId)
      && db'.users == db.users && db'.votes == db.votes
  {
  }

  /** The vote key is unique: a second insert of the same pair is refused and changes nothing. */
  lemma InsertVoteConsistent(db: Db, k: VoteKey)
    requires Consistent(db)
    ensures var (db', r) := InsertVote(db, k);
      && Consistent(db')
      && (k in db.votes ==> r == Err(ServerError(UniqueViolation)) && db' == db)
      && (r.Ok? <==> k !in db.votes && k.userId in db.users && k.postId in db.posts)
      && db'.votes == (if r.Ok? then db.votes + {k} else db.votes)
      && db'.users == db.users && db'.posts == db.posts
  {
  }

  /** Removing a vote keeps the store consistent and touches no other vote. */
  lemma DeleteVoteConsistent(db: Db, k: VoteKey)
    requires Consistent(db)
    ensures Consistent(DeleteVoteRow(db, k))
    ensures forall v :: v in DeleteVoteRow(db, k).votes <==> v in db.votes && v != k
    ensures DeleteVoteRow(db, k).users == db.users && DeleteVoteRow(db, k).posts == db.posts
    ensures DeleteVoteRow(db, k).nextUserId == db.nextUserId && DeleteVoteRow(db, k).nextPostId == db.nextPostId
  {
  }

  /** Updating a post keeps it consistent: id, owner and creation time stay, the three fields are replaced. */
  lemma UpdatePostConsistent(db: Db, id: int, p: PostCreate)
    requires Consistent(db)
    ensures var db' := UpdatePostRow(db, id, p);
      && Consistent(db')
      && db'.posts.Keys == db.posts.Keys
      && (id in db.posts ==>
            var old_, new_ := db.posts[id], db'.posts[id];
            new_.id == old_.id && new_.ownerId == old_.ownerId && new_.createdAt == old_.createdAt
            && new_.title == p.title && new_.content == p.content && new_.published == p.published)
      && (forall other :: other in db.posts && other != id ==> db'.posts[other] == db.posts[other])
      && db'.users == db.users && db'.votes == db.votes
  {
  }

  /** Deleting a post cascades to exactly the votes on it; every other post and vote stays. */
  lemma DeletePostCascades(db: Db, id: int)
    requires Consistent(db)
    ensures var db' := DeletePostRow(db, id);
      && Consistent(db')
      && db'.posts.Keys == db.posts.Keys - {id}
      && (forall other :: other in db'.posts ==> db'.posts[other] == db.posts[other])
      && (forall v :: v in db'.votes <==> v in db.votes && v.postId != id)
      && db'.users == db.users
      && db'.nextUserId == db.nextUserId && db'.nextPostId == db.nextPostId
  {
  }

  /** Deleting a user cascades to the posts they own and to every vote they cast or that was on those posts. */
  lemma DeleteUserCascades(db: Db, id: int)
    requires Consistent(db)
    ensures var db' := DeleteUserRow(db, id);
      && Consistent(db')
      && db'.users == db.users - {id}
      && (forall p :: p in db'.posts <==> p in db.posts && db.posts[p].ownerId != id)
      && (forall p :: p in db'.posts ==> db'.posts[p] == db.posts[p])
      && (forall v :: v in db'.votes <==> v in db.votes && v.userId != id && v.postId in db'.posts)
      && db'.nextUserId == db.nextUserId && db'.nextPostId == db.nextPostId
  {
    var db' := DeleteUserRow(db, id);
    var owned := OwnedBy(db.posts, id);
    forall p | p in db'.posts ensures db'.posts[p].ownerId in db'.users {
      assert p !in owned;
    }
  }

  /**
   * The tables as fields that the route handlers change in place. Each method is proved to move
   * the store exactly as the matching transition function above moves a Db.
   */
  class Store {
    var users: map<int, User>
    var posts: map<int, Post>
    var votes: set<VoteKey>
    var nextUserId: int
    var nextPostId: int

    /** The current contents as a value. */
    function State(): Db
      reads this
    {
      Db(users, posts, votes, nextUserId, nextPostId)
    }

    ghost predicate Valid()
      reads this
    {
      Consistent(State())
    }

    constructor ()
      ensures Valid() && State() == EmptyDb
    {
      users, posts, votes := map[], map[], {};
      nextUserId, nextPostId := 1, 1;
    }

    method AddUser(email: string, passwordHash: string, now: int) returns (r: Result<User, Error>)
      requires Valid()
      modifies this
      ensures Valid()
      ensures (State(), r) == InsertUser(old(State()), email, passwordHash, now)
    {
      InsertUserConsistent(State(), email, passwordHash, now);
      var id := nextUserId;
      nextUserId := nextUserId + 1;
      if EmailTaken(users, email) {
        r := Err(ServerError(UniqueViolation));
      } else {
        var u := User(id, email, passwordHash, now);
        users := users[id := u];
        r := Ok(u);
      }
    }

    method AddPost(ownerId: int, p: PostCreate, now: int) returns (r: Result<Post, Error>)
      requires Valid()
      modifies this
      ensures Valid()
      ensures (State(), r) == InsertPost(old(State()), ownerId, p, now)
    {
      InsertPostConsistent(State(), ownerId, p, now);
      var id := nextPostId;
      nextPostId := nextPostId + 1;
      if ownerId !in users {
        r := Err(ServerError(ForeignKeyViolation));
      } else {
        var post := Post(id, p.title, p.content, p.published, now, ownerId);
        posts := posts[id := post];
        r := Ok(post);
      }
    }

    method AddVote(k: VoteKey) returns (r: Result<(), Error>)
      requires Valid()
      modifies this
      ensures Valid()
      ensures (State(), r) == InsertVote(old(State()), k)
    {
      InsertVoteConsistent(State(), k);
      if k in votes {
        r := Err(ServerError(UniqueViolation));
      } else if k.userId !in users || k.postId !in posts {
        r := Err(ServerError(ForeignKeyViolation));
      } else {
        votes := votes + {k};
        r := Ok(());
      }
    }

    method RemoveVote(k: VoteKey)
      requires Valid()
      modifies this
      ensures Valid()
      ensures State() == DeleteVoteRow(old(State()), k)
    {
      DeleteVoteConsistent(State(), k);
      votes := votes - {k};
    }

    method ReplacePost(id: int, p: PostCreate)
      requires Valid()
      modifies this
      ensures Valid()
      ensures State() == UpdatePostRow(old(State()), id, p)
    {
      UpdatePostConsistent(State(), id, p);
      if id in posts {
        posts := posts[id := posts[id].(title := p.title, content := p.content, published := p.published)];
      }
    }

    method RemovePost(id: int)
      requires Valid()
      modifies this
      ensures Valid()
      ensures State() == DeletePostRow(old(State()), id)
    {
      DeletePostCascades(State(), id);
      votes := set v | v in votes && v.postId != id;
      posts := posts - {id};
    }

    method RemoveUser(id: int)
      requires Valid()
      modifies this
      ensures Valid()
      ensures State() == DeleteUserRow(old(State()), id)
    {
      DeleteUserCascades(State(), id);
      var owned := OwnedBy(posts, id);
      votes := set v | v in votes && v.userId != id && v.postId !in owned;
      posts := posts - owned;
      users := users - {id};
    }
  }
}
