/**
 * app/routers/post.py: the listing and single-post queries as functions over the tables, and the
 * create / update / delete handlers as methods on the store, each proved against a transition.
 * Every handler receives the id of the caller that get_current_user resolved.
 */
module Posts {
  import opened Wrappers
  import opened Schemas
  import opened Models
  import opened Ordering
  import opened Search

  /** The query parameters' defaults of get_posts: `limit=10`, `skip=0`, `search=""`. */
  const DefaultLimit: int := 10
  const DefaultSkip: int := 0
  const DefaultSearch: string := ""

  /** A finite set is no larger than a finite set that includes it. */
  lemma {:induction false} SubsetNoLarger(a: set<int>, b: set<int>)
    requires a <= b
    ensures |a| <= |b|
    decreases |b|
  {
    Inhabited(a);
    if a != {} {
      var x :| x in a;
      SubsetNoLarger(a - {x}, b - {x});
    }
  }

  /** A post with its number of votes (PostOut). */
  datatype PostOut = PostOut(post: Post, votes: nat)

  /** `count(votes.post_id)` over the left outer join: the votes that reference the post. */
  function VoteCount(votes: set<VoteKey>, postId: int): nat
  {
    |set v | v in votes && v.postId == postId|
  }

  /** A post nobody voted on is counted 0, not dropped by the join. */
  lemma NoVotesCountZero(votes: set<VoteKey>, postId: int)
    requires forall v :: v in votes ==> v.postId != postId
    ensures VoteCount(votes, postId) == 0
  {
    assert (set v | v in votes && v.postId == postId) == {};
  }

  /** `WHERE title LIKE .. ORDER BY id`, with the filter as the substring test. */
  function MatchingIds(posts: map<int, Post>, search: string): (r: seq<int>)
    ensures forall id :: id in r <==> id in posts && Contains(posts[id].title, search)
    ensures StrictlyAscending(r)
  {
    var matching := set id | id in posts && Contains(posts[id].title, search);
    var r := SortedIds(matching);
    assert forall id :: id in r <==> id in matching;
    r
  }

  /** `WHERE title LIKE '%' || search || '%' ORDER BY id`, the filter exactly as the query builds it. */
  function MatchingIdsAsWritten(posts: map<int, Post>, search: string): (r: seq<int>)
    ensures forall id :: id in r <==> id in posts && MatchesAsWritten(posts[id].title, search)
    ensures StrictlyAscending(r)
  {
    var matching := set id | id in posts && MatchesAsWritten(posts[id].title, search);
    var r := SortedIds(matching);
    assert forall id :: id in r <==> id in matching;
    r
  }

  /** `OFFSET skip LIMIT limit`: PostgreSQL drops `skip` rows, then keeps at most `limit`. */
  function Page(ids: seq<int>, skip: nat, limit: nat): (r: seq<int>)
    ensures |r| == if skip >= |ids| then 0 else if limit <= |ids| - skip then limit else |ids| - skip
    ensures forall i :: 0 <= i < |r| ==> r[i] == ids[skip + i]
  {
    var rest := if skip <= |ids| then ids[skip..] else [];
    if limit <= |rest| then rest[..limit] else rest
  }

  /** Each id with its post and vote count. */
  function WithVotes(db: Db, ids: seq<int>): (r: seq<PostOut>)
    requires forall i :: 0 <= i < |ids| ==> ids[i] in db.posts
    ensures |r| == |ids|
    ensures forall i :: 0 <= i < |ids| ==> r[i] == PostOut(db.posts[ids[i]], VoteCount(db.votes, ids[i]))
  {
    if ids == [] then [] else [PostOut(db.posts[ids[0]], VoteCount(db.votes, ids[0]))] + WithVotes(db, ids[1..])
  }

  /**
   * get_posts: the posts whose title contains `search`, ascending by id, `skip` dropped, at most
   * `limit` kept, each with its vote count. PostgreSQL refuses a negative OFFSET, then a negative LIMIT.
   */
  function GetPosts(db: Db, limit: int, skip: int, search: string): (r: Result<seq<PostOut>, Error>)
    ensures r.Ok? <==> skip >= 0 && limit >= 0
    ensures skip < 0 ==> r == Err(ServerError(NegativeOffset))
    ensures skip >= 0 && limit < 0 ==> r == Err(ServerError(NegativeLimit))
    ensures r.Ok? ==> |r.value| <= limit
  {
    if skip < 0 then Err(ServerError(NegativeOffset))
    else if limit < 0 then Err(ServerError(NegativeLimit))
    else Ok(WithVotes(db, Page(MatchingIds(db.posts, search), skip, limit)))
  }

  /** get_posts with the unescaped LIKE filter of the query as written; otherwise as GetPosts. */
  function GetPostsAsWritten(db: Db, limit: int, skip: int, search: string): (r: Result<seq<PostOut>, Error>)
    ensures r.Ok? <==> skip >= 0 && limit >= 0
    ensures skip < 0 ==> r == Err(ServerError(NegativeOffset))
    ensures skip >= 0 && limit < 0 ==> r == Err(ServerError(NegativeLimit))
    ensures r.Ok? ==> |r.value| <= limit
  {
    if skip < 0 then Err(ServerError(NegativeOffset))
    else if limit < 0 then Err(ServerError(NegativeLimit))
    else Ok(WithVotes(db, Page(MatchingIdsAsWritten(db.posts, search), skip, limit)))
  }

  /** Without LIKE metacharacters in the search string, the listing as written is the intended one. */
  lemma AsWrittenListingAgreesWithoutWildcards(db: Db, limit: int, skip: int, search: string)
    requires NoWildcards(search)
    ensures GetPostsAsWritten(db, limit, skip, search) == GetPosts(db, limit, skip, search)
  {
    var asWritten := set id | id in db.posts && MatchesAsWritten(db.posts[id].title, search);
    var intended := set id | id in db.posts && Contains(db.posts[id].title, search);
    assert asWritten == intended;
  }

  /** The listing as written returns a post titled "abc" for the search "_", though "abc" holds no "_". */
  lemma WildcardListingSelectsUnrelatedPost(db: Db, id: int)
    requires Consistent(db) && id in db.posts && db.posts[id].title == "abc"
    requires |db.posts| <= DefaultLimit
    ensures var r := GetPostsAsWritten(db, DefaultLimit, 0, "_");
      && r.Ok?
      && exists i :: 0 <= i < |r.value| && r.value[i].post == db.posts[id] && !Contains(r.value[i].post.title, "_")
  {
    WildcardSearchMatchesUnrelatedTitle();
    var matching := set k | k in db.posts && MatchesAsWritten(db.posts[k].title, "_");
    assert matching <= db.posts.Keys;
    SubsetNoLarger(matching, db.posts.Keys);
    var all := MatchingIdsAsWritten(db.posts, "_");
    assert id in all;
    var k :| 0 <= k < |all| && all[k] == id;
    var r := GetPostsAsWritten(db, DefaultLimit, 0, "_");
    assert r.value[k].post == db.posts[id];
  }

  /** The listing is the page of the matching posts, each with its own vote count. */
  lemma {:induction false} GetPostsIsPage(db: Db, limit: int, skip: int, search: string)
    requires Consistent(db)
    requires skip >= 0 && limit >= 0
    ensures var all := MatchingIds(db.posts, search);
      var r := GetPosts(db, limit, skip, search);
      && r.Ok?
      && |r.value| == (if skip >= |all| then 0 else if limit <= |all| - skip then limit else |all| - skip)
      && forall i :: 0 <= i < |r.value| ==>
           && r.value[i].post == db.posts[all[skip + i]]
           && r.value[i].post.id == all[skip + i]
           && r.value[i].votes == VoteCount(db.votes, all[skip + i])
  {
    var all := MatchingIds(db.posts, search);
    var page := Page(all, skip, limit);
    assert forall i :: 0 <= i < |page| ==> page[i] in all;
  }

  /** The listing as written is the page of the LIKE-matching posts, each with its own vote count, for every search. */
  lemma {:induction false} GetPostsAsWrittenIsPage(db: Db, limit: int, skip: int, search: string)
    requires Consistent(db)
    requires skip >= 0 && limit >= 0
    ensures var all := MatchingIdsAsWritten(db.posts, search);
      var r := GetPostsAsWritten(db, limit, skip, search);
      && r.Ok?
      && |r.value| == (if skip >= |all| then 0 else if limit <= |all| - skip then limit else |all| - skip)
      && forall i :: 0 <= i < |r.value| ==>
           && r.value[i].post == db.posts[all[skip + i]]
           && r.value[i].post.id == all[skip + i]
           && r.value[i].votes == VoteCount(db.votes, all[skip + i])
  {
    var all := MatchingIdsAsWritten(db.posts, search);
    var page := Page(all, skip, limit);
    assert forall i :: 0 <= i < |page| ==> page[i] in all;
  }

  /** Every post the listing as written returns has a title that matches the LIKE pattern. */
  lemma ListedTitlesMatchAsWritten(db: Db, limit: int, skip: int, search: string)
    requires Consistent(db)
    ensures var r := GetPostsAsWritten(db, limit, skip, search);
      r.Ok? ==> forall i :: 0 <= i < |r.value| ==> MatchesAsWritten(r.value[i].post.title, search)
  {
    if skip >= 0 && limit >= 0 {
      GetPostsAsWrittenIsPage(db, limit, skip, search);
      var all := MatchingIdsAsWritten(db.posts, search);
      var r := GetPostsAsWritten(db, limit, skip, search);
      forall i | 0 <= i < |r.value| ensures MatchesAsWritten(r.value[i].post.title, search) {
        assert all[skip + i] in all;
      }
    }
  }

  /** Every listed post's title contains the search string. */
  lemma ListedTitlesContainSearch(db: Db, limit: int, skip: int, search: string)
    requires Consistent(db)
    ensures var r := GetPosts(db, limit, skip, search);
      r.Ok? ==> forall i :: 0 <= i < |r.value| ==> Contains(r.value[i].post.title, search)
  {
    if skip >= 0 && limit >= 0 {
      GetPostsIsPage(db, limit, skip, search);
      var all := MatchingIds(db.posts, search);
      var r := GetPosts(db, limit, skip, search);
      forall i | 0 <= i < |r.value| ensures Contains(r.value[i].post.title, search) {
        assert all[skip + i] in all;
      }
    }
  }

  /** The listed ids are strictly ascending, in the intended listing and in the listing as written. */
  lemma ListedAscending(db: Db, limit: int, skip: int, search: string)
    requires Consistent(db)
    ensures var r := GetPosts(db, limit, skip, search);
      r.Ok? ==> forall i, j :: 0 <= i < j < |r.value| ==> r.value[i].post.id < r.value[j].post.id
    ensures var r := GetPostsAsWritten(db, limit, skip, search);
      r.Ok? ==> forall i, j :: 0 <= i < j < |r.value| ==> r.value[i].post.id < r.value[j].post.id
  {
    if skip >= 0 && limit >= 0 {
      GetPostsIsPage(db, limit, skip, search);
      GetPostsAsWrittenIsPage(db, limit, skip, search);
    }
  }

  /** With the empty search and no skip, the first `limit` posts are listed, in id order. */
  lemma EmptySearchListsFirstPosts(db: Db, limit: int)
    requires Consistent(db)
    requires limit >= 0
    ensures var r := GetPosts(db, limit, 0, "");
      && r.Ok? && |r.value| == (if limit <= |db.posts| then limit else |db.posts|)
      && forall i :: 0 <= i < |r.value| ==> r.value[i].post.id == SortedIds(db.posts.Keys)[i]
  {
    forall id | id in db.posts ensures Contains(db.posts[id].title, "") {
      EmptySearchContained(db.posts[id].title);
    }
    assert (set id | id in db.posts && Contains(db.posts[id].title, "")) == db.posts.Keys;
    GetPostsIsPage(db, limit, 0, "");
  }

  /**
   * A bare `GET /posts`: the defaults list the first ten posts in id order, all of them when there
   * are at most ten; the listing as written gives the same, as the empty search has no metacharacter.
   */
  lemma DefaultListing(db: Db)
    requires Consistent(db)
    ensures var r := GetPosts(db, DefaultLimit, DefaultSkip, DefaultSearch);
      && r.Ok? && |r.value| == (if |db.posts| <= DefaultLimit then |db.posts| else DefaultLimit)
      && forall i :: 0 <= i < |r.value| ==> r.value[i].post.id == SortedIds(db.posts.Keys)[i]
    ensures GetPostsAsWritten(db, DefaultLimit, DefaultSkip, DefaultSearch) == GetPosts(db, DefaultLimit, DefaultSkip, DefaultSearch)
  {
    EmptySearchListsFirstPosts(db, DefaultLimit);
    AsWrittenListingAgreesWithoutWildcards(db, DefaultLimit, DefaultSkip, DefaultSearch);
  }

  /** get_post: the post with that id and its vote count, or 404. */
  function GetPost(db: Db, id: int): (r: Result<PostOut, Error>)
    ensures r.Err? <==> id !in db.posts
    ensures r.Err? ==> r.error == NotFound
    ensures r.Ok? ==> r.value.post == db.posts[id] && r.value.votes == VoteCount(db.votes, id)
  {
    if id !in db.posts then Err(NotFound) else Ok(PostOut(db.posts[id], VoteCount(db.votes, id)))
  }

  /** A fetched post carries the requested id and its stored title and content. */
  lemma GetPostReturnsStored(db: Db, id: int)
    requires Consistent(db) && id in db.posts
    ensures var r := GetPost(db, id);
      r.Ok? && r.value.post.id == id
      && r.value.post.title == db.posts[id].title && r.value.post.content == db.posts[id].content
  {
  }

  /** A newly created post is fetched with zero votes. */
  lemma CreatedPostHasNoVotes(db: Db, caller: int, p: PostCreate, now: int)
    requires Consistent(db) && caller in db.users
    ensures var (db', r) := InsertPost(db, caller, p, now);
      r.Ok? && GetPost(db', r.value.id) == Ok(PostOut(r.value, 0))
  {
    InsertPostConsistent(db, caller, p, now);
    var (db', r) := InsertPost(db, caller, p, now);
    NoVotesCountZero(db'.votes, r.value.id);
  }

  /** Once a user is deleted, none of the posts they owned can be fetched. */
  lemma DeletedUsersPostsGone(db: Db, userId: int, id: int)
    requires Consistent(db) && id in db.posts && db.posts[id].ownerId == userId
    ensures GetPost(DeleteUserRow(db, userId), id) == Err(NotFound)
  {
    assert id in OwnedBy(db.posts, userId);
  }

  /** update_post: 404 before 403; the owner's update replaces title, content and published. */
  function UpdatePostSpec(db: Db, caller: int, id: int, p: PostCreate): (Db, Result<Post, Error>)
  {
    if id !in db.posts then (db, Err(NotFound))
    else if db.posts[id].ownerId != caller then (db, Err(Forbidden))
    else
      var db' := UpdatePostRow(db, id, p);
      (db', Ok(db'.posts[id]))
  }

  /** delete_post: 404 before 403; the owner's delete removes the post and its votes. */
  function DeletePostSpec(db: Db, caller: int, id: int): (Db, Result<(), Error>)
  {
    if id !in db.posts then (db, Err(NotFound))
    else if db.posts[id].ownerId != caller then (db, Err(Forbidden))
    else (DeletePostRow(db, id), Ok(()))
  }

  /** A missing post is 404 for every caller, a foreign post 403; neither changes the store. */
  lemma MutationChecksExistenceThenOwner(db: Db, caller: int, id: int, p: PostCreate)
    ensures id !in db.posts ==>
      UpdatePostSpec(db, caller, id, p) == (db, Err(NotFound)) && DeletePostSpec(db, caller, id) == (db, Err(NotFound))
    ensures id in db.posts && db.posts[id].ownerId != caller ==>
      UpdatePostSpec(db, caller, id, p) == (db, Err(Forbidden)) && DeletePostSpec(db, caller, id) == (db, Err(Forbidden))
  {
  }

  /** The owner's update replaces exactly the three payload fields; id and owner never change. */
  lemma OwnerUpdateReplacesFields(db: Db, caller: int, id: int, p: PostCreate)
    requires Consistent(db) && id in db.posts && db.posts[id].ownerId == caller
    ensures var (db', r) := UpdatePostSpec(db, caller, id, p);
      && Consistent(db') && r.Ok?
      && r.value == db'.posts[id]
      && r.value.id == id && r.value.ownerId == caller && r.value.createdAt == db.posts[id].createdAt
      && r.value.title == p.title && r.value.content == p.content && r.value.published == p.published
      && (forall other :: other in db.posts && other != id ==> db'.posts[other] == db.posts[other])
      && db'.posts.Keys == db.posts.Keys && db'.votes == db.votes && db'.users == db.users
  {
    UpdatePostConsistent(db, id, p);
  }

  /** The owner's delete removes the post and, by cascade, exactly its votes. */
  lemma OwnerDeleteCascades(db: Db, caller: int, id: int)
    requires Consistent(db) && id in db.posts && db.posts[id].ownerId == caller
    ensures var (db', r) := DeletePostSpec(db, caller, id);
      && Consistent(db') && r.Ok?
      && GetPost(db', id) == Err(NotFound)
      && (forall other :: other in db.posts && other != id ==> GetPost(db', other).Ok? && db'.posts[other] == db.posts[other])
      && (forall v :: v in db'.votes <==> v in db.votes && v.postId != id)
      && db'.posts.Keys == db.posts.Keys - {id}
      && db'.users == db.users
  {
    DeletePostCascades(db, id);
  }

  /** create_post: the new post belongs to the caller and carries the payload's fields. */
  method CreatePost(s: Store, caller: int, p: PostCreate, now: int) returns (r: Result<Post, Error>)
    requires s.Valid()
    modifies s
    ensures s.Valid()
    ensures (s.State(), r) == InsertPost(old(s.State()), caller, p, now)
    ensures r.Ok? <==> caller in old(s.users)
    ensures r.Ok? ==> && r.value.ownerId == caller && r.value.id !in old(s.posts)
                      && r.value.title == p.title && r.value.content == p.content && r.value.published == p.published
  {
    r := s.AddPost(caller, p, now);
  }

  /** update_post. */
  method UpdatePost(s: Store, caller: int, id: int, p: PostCreate) returns (r: Result<Post, Error>)
    requires s.Valid()
    modifies s
    ensures s.Valid()
    ensures (s.State(), r) == UpdatePostSpec(old(s.State()), caller, id, p)
  {
    if id !in s.posts {
      return Err(NotFound);
    }
    if s.posts[id].ownerId != caller {
      return Err(Forbidden);
    }
    s.ReplacePost(id, p);
    r := Ok(s.posts[id]);
  }

  /** delete_post. */
  method DeletePost(s: Store, caller: int, id: int) returns (r: Result<(), Error>)
    requires s.Valid()
    modifies s
    ensures s.Valid()
    ensures (s.State(), r) == DeletePostSpec(old(s.State()), caller, id)
  {
    if id !in s.posts {
      return Err(NotFound);
    }
    if s.posts[id].ownerId != caller {
      return Err(Forbidden);
    }
    s.RemovePost(id);
    r := Ok(());
  }
}
