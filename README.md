# A verified model of the posts-and-votes CRUD API

This project models, in Dafny, the core of a small FastAPI/SQLAlchemy social API: users register
and log in with a bearer token, create, list, update and delete posts, and cast or retract a vote
on a post. The PostgreSQL database is replaced by an in-memory store of three tables:

- `users`, keyed by id, with a unique email;
- `posts`, keyed by id, each with a required owner;
- `votes`, a set of (user_id, post_id) pairs, where the pair is the whole row.

The two SERIAL sequences are part of the store too.

Layout, one module per source file:

- `wrappers.dfy` (`Wrappers`): `Option`, `Result` and the error taxonomy. `NotFound` is 404, `Forbidden` 403 (not the owner), `Conflict` 409, `InvalidCredentials` the 403 of `/login`, `Unauthorized` the 401 of the token gate, `Unprocessable` 422, and `ServerError(cause)` an unhandled exception (500).
- `schemas.dfy` (`Schemas`): the pydantic shapes (`PostCreate`, `UserCreate`, `UserOut`, `Token`, `TokenData`, `VoteIn`) and the body validation. `published` defaults to true. Unknown fields are ignored. `dir` is a strict int in [0, 1]. `TokenData.id` is an `Option<int>` whose pydantic default is `None`; the core always fills it in.
- `crypto.dfy` (`Crypto`): bcrypt (`Hasher`) and the JWT codec (`JwtCodec`). They are parameters, because the model cannot see inside them. `SoundHasher` states that a digest verifies against its own plaintext. The token round trip, `OAuth2.IssuedTokensRoundTrip`, is stated only for the claims sets the core issues (an integer `user_id` and a numeric `exp`): such a token decodes to its claims until its `exp` claim (section 4.1.4 of RFC 7519) has passed. Theorems that rely on these assumptions take them as `requires`.
- `models.dfy` (`Models`): the row types, the value `Db` of the whole store, and `Consistent`. `Consistent` holds when ids key their rows and lie below their sequence, emails are unique, every owner exists and no vote dangles. The module also holds one transition function per SQL statement, with cascades, and the `Store` class, whose methods change the tables in place. Each method is proved to move the store exactly as its transition function moves a `Db`.
- `ordering.dfy` (`Ordering`): `ORDER BY id` as the ascending enumeration of a set of ids.
- `search.dfy` (`Search`): the title filter, covering both the LIKE pattern the query actually builds and the substring test (see Findings).
- `posts.dfy` (`Posts`): `get_posts` and `get_post` as functions over the tables. `create_post`, `update_post` and `delete_post` are methods on the store, proved against transition functions. The listing appears twice: `GetPostsAsWritten` applies the LIKE filter as the query builds it; `GetPosts`, which the other lemmas use, applies the intended substring test. Paging, id order and vote counts are proved for both, and the two agree on every search string without LIKE metacharacters.
- `votes.dfy` (`Votes`): the cast/retract toggle.
- `oauth2.dfy` (`OAuth2`): the token claims, token verification, and resolution of the current user.
- `users.dfy` (`Users`): registration and public lookup.
- `auth.dfy` (`Auth`): login. This is the resource-owner password grant of section 4.3 of RFC 6749, and it answers with `token_type` "bearer".

Time is an integer number of minutes passed in by the caller. The token lifetime `ttl` is a
parameter. The protected handlers take the id of the caller that `get_current_user` resolved.

Two behaviours of the code that the model follows although the usual REST conventions would suggest otherwise:

- Registering a taken email is not answered with 409 Conflict, although create_user's docstring (app/routers/user.py:28-29) announces an HTTPException. The unique index raises an `IntegrityError` that nothing catches, so the request ends with a 500 (`ServerError(UniqueViolation)`). The sequence value drawn for the failed row is consumed.
- Login failures are 403 "Invalid credentials", not 401.

## Model

| member | source | states |
|---|---|---|
| `Schemas.ParsePostCreate` | app/schemas.py:52-63 | a post body is accepted exactly when title and content are strings and `published`, if present, is a boolean (or 0/1); the payload carries the body's title and content, and `published` is true exactly when the body omits it or gives true (or 1); every rejection is 422 |
| `Schemas.PublishedDefaultsToTrue` | app/schemas.py:57 | a body without `published` yields a payload with `published` true |
| `Schemas.ExtraFieldIgnored` | app/schemas.py:52-63 | adding any field other than title, content and published (such as `id`) to a body does not change the payload |
| `Schemas.ParseDumpRoundTrip` | app/schemas.py:52-63 | validating the `model_dump()` of a payload gives that payload back |
| `Schemas.ParseVote` | app/schemas.py:110-117 | a vote body is accepted exactly when `post_id` is an int and `dir` is the int 0 or 1 (a boolean or other value is 422) |
| `Models.EmptyConsistent` | app/models.py:14-70 | the empty database with sequences at 1 satisfies every table constraint |
| `Models.InsertUserConsistent` | app/models.py:45-47 | inserting a user succeeds exactly when the email is not taken; a taken email fails on the unique constraint and adds no user; a new user gets a fresh id; consistency is kept |
| `Models.InsertPostConsistent` | app/models.py:21-32 | inserting a post succeeds exactly when its owner exists, with a fresh id and that owner; otherwise the foreign key fails and no post is added |
| `Models.InsertVoteConsistent` | app/models.py:63-70 | a vote pair already present is refused by the primary key and changes nothing; a new pair with existing user and post is added and nothing else changes |
| `Models.DeleteVoteConsistent` | app/routers/vote.py:80 | deleting a vote pair removes that pair only; users, posts and both sequences are unchanged; consistency is kept |
| `Models.UpdatePostConsistent` | app/routers/post.py:209 | the UPDATE replaces title, content and published and keeps id, owner and creation time; other posts, users and votes are untouched |
| `Models.DeletePostCascades` | app/models.py:66-69 | deleting a post removes exactly that id from the posts and exactly the votes on it; every other post stays as it was; users and sequences are unchanged |
| `Models.DeleteUserCascades` | app/models.py:28-70 | deleting a user removes exactly that user, exactly the posts they own and exactly the votes they cast or that were on those posts; every other user, post and vote stays as it was; sequences are unchanged |
| `Models.Store.constructor` | app/models.py:14-70 | a new store holds the empty, consistent database |
| `Models.Store.AddUser` | app/models.py:45-47 | the in-place insert moves the store as `InsertUser` does and keeps it valid |
| `Models.Store.AddPost` | app/models.py:21-32 | the in-place insert moves the store as `InsertPost` does and keeps it valid |
| `Models.Store.AddVote` | app/models.py:63-70 | the in-place insert moves the store as `InsertVote` does and keeps it valid |
| `Models.Store.RemoveVote` | app/routers/vote.py:80-81 | the in-place delete moves the store as `DeleteVoteRow` does and keeps it valid |
| `Models.Store.ReplacePost` | app/routers/post.py:209-210 | the in-place update moves the store as `UpdatePostRow` does and keeps it valid |
| `Models.Store.RemovePost` | app/models.py:66-69 | the in-place delete with its cascade moves the store as `DeletePostRow` does and keeps it valid |
| `Models.Store.RemoveUser` | app/models.py:28-32 | the in-place delete with its cascades moves the store as `DeleteUserRow` does and keeps it valid |
| `Ordering.SortedIds` | app/routers/post.py:50 | the result lists every id of the set once, nothing else, in strictly ascending order |
| `Search.MatchesAsWritten` | app/routers/post.py:51 | the title filter as the query builds it; for a search string without metacharacters it holds exactly when the title contains the search string |
| `Search.AsWrittenAgreesWithoutWildcards` | app/routers/post.py:51 | for a search string without `%`, `_` or `\`, the LIKE filter the query builds selects exactly the titles that contain the search string |
| `Search.WildcardSearchMatchesUnrelatedTitle` | app/routers/post.py:51 | the search string "_" selects the title "abc", which does not contain "_" |
| `Search.EmptySearchContained` | app/routers/post.py:26 | the default empty search string is contained in every title |
| `Posts.NoVotesCountZero` | app/routers/post.py:47-49 | a post that no vote references is counted 0 by the outer join |
| `Posts.MatchingIds` | app/routers/post.py:50-51 | the intended filter (see Findings): the ids listed are exactly those of the posts whose title contains the search string, strictly ascending |
| `Posts.MatchingIdsAsWritten` | app/routers/post.py:50-51 | the filter as written: the ids listed are exactly those of the posts whose title matches the unescaped LIKE pattern `'%' \|\| search \|\| '%'`, strictly ascending |
| `Posts.Page` | app/routers/post.py:52-53 | OFFSET then LIMIT: the page is the sequence with `skip` items dropped, then at most `limit` kept, in order |
| `Posts.WithVotes` | app/routers/post.py:47-49 | each listed id is paired with its stored post and its own vote count |
| `Posts.GetPosts` | app/routers/post.py:21-57 | the listing fails exactly when skip or limit is negative (offset checked first); otherwise it holds at most `limit` items |
| `Posts.GetPostsAsWritten` | app/routers/post.py:21-57 | the listing as written fails exactly when skip or limit is negative (offset checked first); otherwise it holds at most `limit` items |
| `Posts.AsWrittenListingAgreesWithoutWildcards` | app/routers/post.py:47-53 | for a search string without LIKE metacharacters, the listing as written equals the intended listing |
| `Posts.WildcardListingSelectsUnrelatedPost` | app/routers/post.py:47-53 | in a store of at most ten posts, the default limit and the search "_" list a post titled "abc", whose title does not contain "_" |
| `Posts.GetPostsIsPage` | app/routers/post.py:47-53 | the listing is the page of the ordered matching posts (skip dropped, limit kept), each item carrying that post and its vote count |
| `Posts.GetPostsAsWrittenIsPage` | app/routers/post.py:47-53 | for every search string, the listing as written is the page of the ordered LIKE-matching posts (skip dropped, limit kept), each item carrying that post and its vote count |
| `Posts.ListedTitlesMatchAsWritten` | app/routers/post.py:51 | every post the listing as written returns has a title matching the unescaped LIKE pattern |
| `Posts.ListedTitlesContainSearch` | app/routers/post.py:51 | every listed post's title contains the search string |
| `Posts.ListedAscending` | app/routers/post.py:50 | listed post ids are strictly ascending, in the intended listing and in the listing as written |
| `Posts.EmptySearchListsFirstPosts` | app/routers/post.py:24-26 | with the empty search and no skip, the first `limit` posts (all of them when there are fewer) are listed in id order |
| `Posts.DefaultListing` | app/routers/post.py:24-26 | a bare listing with the defaults limit=10, skip=0 and search="" returns the first ten posts in id order, every post when there are at most ten; the listing as written returns the same |
| `Posts.GetPost` | app/routers/post.py:106-120 | fetching fails with 404 exactly when no post has the id; otherwise it returns that post and its vote count |
| `Posts.GetPostReturnsStored` | app/routers/post.py:106-120 | a fetched post carries the requested id and its stored title and content |
| `Posts.CreatedPostHasNoVotes` | app/routers/post.py:79-83 | a post just created by an existing user is fetched with 0 votes |
| `Posts.DeletedUsersPostsGone` | app/models.py:30-32 | after its owner is deleted, fetching any of their posts fails with 404 |
| `Posts.MutationChecksExistenceThenOwner` | app/routers/post.py:145-207 | update and delete on a missing id fail 404 for every caller; on another user's post they fail 403; neither changes the store |
| `Posts.OwnerUpdateReplacesFields` | app/routers/post.py:193-212 | the owner's update returns the stored post with title, content and published from the payload and the same id, owner and creation time; other posts, votes and users are unchanged |
| `Posts.OwnerDeleteCascades` | app/routers/post.py:145-164 | the owner's delete succeeds; exactly that post is gone and can no longer be fetched; every other post still can; exactly the votes on the post are gone; users are unchanged |
| `Posts.CreatePost` | app/routers/post.py:61-83 | creation succeeds exactly when the caller exists; the new post has a fresh id, is owned by the caller and carries the payload's title, content and published |
| `Posts.UpdatePost` | app/routers/post.py:168-212 | the handler moves the store and answers as `UpdatePostSpec` |
| `Posts.DeletePost` | app/routers/post.py:124-164 | the handler moves the store and answers as `DeletePostSpec` |
| `Votes.VoteOnMissingPost` | app/routers/vote.py:47-51 | voting on a missing post fails 404 whatever the direction and leaves the store unchanged |
| `Votes.CastTwiceConflicts` | app/routers/vote.py:60-65 | casting a vote that exists fails 409 and leaves the store unchanged |
| `Votes.CastAddsPair` | app/routers/vote.py:67-72 | casting a new vote adds exactly that (user, post) pair and changes nothing else |
| `Votes.RetractMissingNotFound` | app/routers/vote.py:74-78 | retracting a vote that does not exist fails 404 and leaves the store unchanged |
| `Votes.RetractRemovesPair` | app/routers/vote.py:53-83 | retracting removes the caller's vote on that post; other users' votes on the post and the caller's votes on other posts stay |
| `Votes.VoteConsistent` | app/routers/vote.py:18-83 | the vote handler keeps every table constraint |
| `Votes.CastThenRetractRestores` | app/routers/vote.py:60-83 | a successful cast followed by a retract of the same pair both succeed and restore the original store |
| `Votes.RetractThenCastRestores` | app/routers/vote.py:60-83 | a retract followed by a cast of the same pair both succeed and restore the original store |
| `Votes.CastCountsOnce` | app/routers/vote.py:67-72 | a successful cast raises that post's vote count by exactly one and leaves every other post's count |
| `Votes.Vote` | app/routers/vote.py:18-83 | the handler moves the store and answers as `VoteSpec` |
| `OAuth2.AccessPayload` | app/oauth2.py:40-45 | the claims set has every key of the input with its value, except `exp`, which is set to issue time plus the lifetime, and no other key |
| `OAuth2.CreateAccessToken` | app/oauth2.py:30-50 | for the {"user_id": id} claims the core issues and a codec that round-trips them, the token decodes to those claims with `exp` set to issue time plus the lifetime, until then, and to nothing after |
| `OAuth2.VerifyAccessToken` | app/oauth2.py:53-84 | any decoding failure, a missing user_id and a null user_id all give the same 401; success carries the token's integer user_id; a text user_id escapes as a 500 |
| `OAuth2.GetCurrentUser` | app/oauth2.py:87-119 | the result is the stored user whose id the verified token names; a bad token propagates its error; a token naming no stored user gives the 401 of a bad token |
| `OAuth2.CurrentUserMatchesToken` | app/oauth2.py:110-119 | the resolved user's id equals the token's user_id and is a stored user |
| `OAuth2.DeletedUserLikeBadToken` | app/oauth2.py:104-117 | a valid token for a deleted user is refused with exactly the same error as a token that does not decode |
| `OAuth2.IssuedTokenVerifies` | app/oauth2.py:30-84 | with a codec that round-trips the claims the core issues, a token built from {"user_id": id} verifies to id up to issue time plus the lifetime, and is refused with 401 after it |
| `Users.PublicUserHidesPassword` | app/schemas.py:27-35 | the public user record is the same whatever the stored password is, and it carries the user's id and email |
| `Users.GetUser` | app/routers/user.py:48-71 | lookup fails 404 exactly when no user has the id; otherwise it returns that user's public record |
| `Users.RegisterStoresDigest` | app/routers/user.py:36-44 | registering a new email succeeds with a fresh id; the stored password is the digest of the submitted one; the user can be fetched back as the returned record |
| `Users.RegisterDuplicateEmail` | app/routers/user.py:36-41 | registering a taken email fails on the unique constraint and adds no user, post or vote |
| `Users.CreateUser` | app/routers/user.py:18-44 | the handler moves the store and answers as `CreateUserSpec` |
| `Auth.FirstWithEmail` | app/routers/auth.py:43-47 | the user returned is one of the scanned users and has the email; none is returned only when no scanned user has it |
| `Auth.UserByEmail` | app/routers/auth.py:43-47 | a user is found exactly when some stored user has the email, and the one found has it |
| `Auth.UserByEmailUnique` | app/models.py:46 | with unique emails, looking up a stored user's email finds that user |
| `Auth.Login` | app/routers/auth.py:20-58 | every failure is the same 403 "Invalid credentials"; success implies a stored user with that email whose digest verifies the password; the token type is always "bearer" |
| `Auth.LoginUnknownEmail` | app/routers/auth.py:50-53 | an email no user has fails with the invalid-credentials error |
| `Auth.LoginWrongPassword` | app/routers/auth.py:50-53 | a known email with a password that fails verification fails with the identical error |
| `Auth.LoginAcceptsValidCredentials` | app/routers/auth.py:56-58 | a stored email with a verifying password yields a bearer token built from {"user_id": that user's id} |
| `Auth.LoginTokenNamesUser` | app/routers/auth.py:56 | with a codec that round-trips the claims the core issues, the token of a successful login resolves, until it expires, to a user with the login email whose digest verifies the password |
| `Auth.RegisterThenLogin` | app/routers/auth.py:43-58 | with sound hashing and a codec that round-trips the issued claims, registering an address already in EmailStr's normal form and then logging in with the same credentials yields a token that resolves to the registered user and email |
| `Auth.MixedCaseEmailLoginRefused` | app/routers/auth.py:43-53 | an address that EmailStr normalises ("a@B.com" stored as "a@b.com") is refused at login when typed as at registration |
| `Auth.LoginNormalized` | app/routers/auth.py:43-58 | login with the username normalised like the stored address: every failure is the invalid-credentials error; success implies a stored user with the normalised email whose digest verifies the password |
| `Auth.RegisterThenLoginNormalized` | app/routers/auth.py:43-58 | with the username normalised, registering and then logging in with the same credentials succeeds for every address, and the token resolves to the registered user |

## Left out

- JWT signing and decoding internals (python-jose), and bcrypt (passlib): these are parameters. Their behaviour is assumed through `IssuedTokensRoundTrip` and `SoundHasher`. The round trip is assumed only for the claims sets the core issues; jose's further checks on other claims (`aud`, `nbf`, `iat`, `sub`, `at_hash`, a string `exp`) are not modelled. Because of that, "bad signature" and "malformed" are not told apart: both are a decode that returns nothing.
- Configuration loading, database sessions and engines, app wiring, CORS and the root route are plumbing. The token lifetime is a parameter.
- HTTP status codes and response marshalling are collapsed into the `Error` datatype. The nested `owner` record of a post response is not built; `owner_id` identifies it.
- Transactions, commit and refresh, and concurrent requests racing on a unique key are not modelled. Each operation is one atomic step.
- `created_at` is an opaque integer supplied by the caller. Time zones are not modelled.
- pydantic's email syntax check (`EmailStr`) is not modelled. Its normalisation is a parameter `normalize` of the registration lemmas (see Findings); login compares the raw form username with the stored address as plain strings.
- Auth.RegisterThenLogin: holds only for an address already in normal form (`normalize(email) == email`); for other addresses the source refuses the login (`Auth.MixedCaseEmailLoginRefused`).
- pydantic's lax coercions beyond the ones modelled are not covered: strings spelling booleans or numbers, and booleans as ints. A post body accepts booleans and 0/1 for `published`; a vote body accepts ints for `post_id`.
- `OAuth2.VerifyAccessToken`: a `user_id` claim holding a numeric string, which pydantic's lax mode would coerce to an int, is modelled as rejected (500). Tokens issued by `create_access_token` always carry an int.
- 32-bit `Integer` columns are not modelled: ids, `limit` and `skip` are unbounded integers, so the database errors on overflowing values are not modelled.
- The LIKE pattern's error for a trailing escape character is not modelled. A pattern built as `'%' || search || '%'` cannot end in one.
- Token revocation does not exist in the source: a token stays valid until it expires. A deleted user's token is refused only because the user lookup fails (`OAuth2.DeletedUserLikeBadToken`).

## Findings

| source | as written | input that shows it | evidently intended | confidence | as-written member | corrected member |
|---|---|---|---|---|---|---|
| app/routers/post.py:51 | `Post.title.contains(search)` builds `title LIKE '%' \|\| search \|\| '%'` without escaping, so `%`, `_` and `\` in the search string act as pattern characters | in a store of at most ten posts, `GET /posts?search=_` lists the post titled "abc", whose title does not contain "_" | list only the posts whose title contains the search string literally | medium, not executed | `Posts.WildcardListingSelectsUnrelatedPost` | `Posts.ListedTitlesContainSearch` |
| app/routers/auth.py:43-47 | login compares the raw form username with the stored email, which `EmailStr` (app/schemas.py:23) normalised at registration, lower-casing the domain | registering "a@B.com" and then logging in as "a@B.com" with the same password is refused with 403 | log in any address that registration accepted, by normalising the username the same way | medium, not executed | `Auth.MixedCaseEmailLoginRefused` | `Auth.RegisterThenLoginNormalized` |
