/**
 * app/routers/vote.py: the cast/retract toggle over the set of (user, post) votes. The post must
 * exist; direction 1 casts a vote that must not exist yet, direction 0 retracts one that must.
 */
module Votes {
  import opened Wrappers
  import opened Schemas
  import opened Models
  import Posts

  /** The two success messages. */
  datatype VoteMessage = VoteAdded | VoteRemoved

  /** The vote handler as a transition of the tables. */
  function VoteSpec(db: Db, caller: int, v: VoteIn): (Db, Result<VoteMessage, Error>)
  {
    var k := VoteKey(caller, v.postId);
    if v.postId !in db.posts then (db, Err(NotFound))
    else if v.dir == 1 then
      if k in db.votes then (db, Err(Conflict))
      else
        var (db', r) := InsertVote(db, k);
        (db', if r.Ok? then Ok(VoteAdded) else Err(r.error))
    else if k !in db.votes then (db, Err(NotFound))
    else (DeleteVoteRow(db, k), Ok(VoteRemoved))
  }

  /** A missing post is 404 whatever the direction, before any vote is looked up; nothing changes. */
  lemma VoteOnMissingPost(db: Db, caller: int, v: VoteIn)
    requires v.postId !in db.posts
    ensures VoteSpec(db, caller, v) == (db, Err(NotFound))
  {
  }

  /** Casting an existing vote is 409 and changes nothing. */
  lemma CastTwiceConflicts(db: Db, caller: int, postId: int)
    requires postId in db.posts && VoteKey(caller, postId) in db.votes
    ensures VoteSpec(db, caller, VoteIn(postId, 1)) == (db, Err(Conflict))
  {
  }

  /** Casting a new vote adds exactly that pair. */
  lemma CastAddsPair(db: Db, caller: int, postId: int)
    requires Consistent(db) && caller in db.users && postId in db.posts
    requires VoteKey(caller, postId) !in db.votes
    ensures var (db', r) := VoteSpec(db, caller, VoteIn(postId, 1));
      r == Ok(VoteAdded) && db' == db.(votes := db.votes + {VoteKey(caller, postId)})
  {
  }

  /** Retracting a vote that does not exist is 404 and changes nothing. */
  lemma RetractMissingNotFound(db: Db, caller: int, postId: int)
    requires postId in db.posts && VoteKey(caller, postId) !in db.votes
    ensures VoteSpec(db, caller, VoteIn(postId, 0)) == (db, Err(NotFound))
  {
  }

  /** Retracting removes exactly the caller's vote on that post; other votes stay. */
  lemma RetractRemovesPair(db: Db, caller: int, postId: int)
    requires postId in db.posts && VoteKey(caller, postId) in db.votes
    ensures var (db', r) := VoteSpec(db, caller, VoteIn(postId, 0));
      && r == Ok(VoteRemoved)
      && db'.users == db.users && db'.posts == db.posts
      && VoteKey(caller, postId) !in db'.votes
      && (forall w :: w in db.votes && (w.userId != caller || w.postId != postId) ==> w in db'.votes)
      && db'.votes <= db.votes
  {
  }

  /** The vote handler keeps the store consistent. */
  lemma VoteConsistent(db: Db, caller: int, v: VoteIn)
    requires Consistent(db)
    ensures Consistent(VoteSpec(db, caller, v).0)
  {
    var k := VoteKey(caller, v.postId);
    if v.postId in db.posts {
      if v.dir == 1 && k !in db.votes {
        InsertVoteConsistent(db, k);
      } else if v.dir == 0 && k in db.votes {
        DeleteVoteConsistent(db, k);
      }
    }
  }

  /** A cast followed by a retract of the same pair restores the store, and both succeed. */
  lemma CastThenRetractRestores(db: Db, caller: int, postId: int)
    requires Consistent(db) && caller in db.users && postId in db.posts
    requires VoteKey(caller, postId) !in db.votes
    ensures var (db1, r1) := VoteSpec(db, caller, VoteIn(postId, 1));
      var (db2, r2) := VoteSpec(db1, caller, VoteIn(postId, 0));
      r1 == Ok(VoteAdded) && r2 == Ok(VoteRemoved) && db2 == db
  {
    var k := VoteKey(caller, postId);
    CastAddsPair(db, caller, postId);
    assert db.votes + {k} - {k} == db.votes;
  }

  /** A retract followed by a cast of the same pair restores the store. */
  lemma RetractThenCastRestores(db: Db, caller: int, postId: int)
    requires Consistent(db) && postId in db.posts
    requires VoteKey(caller, postId) in db.votes
    ensures var (db1, r1) := VoteSpec(db, caller, VoteIn(postId, 0));
      var (db2, r2) := VoteSpec(db1, caller, VoteIn(postId, 1));
      r1 == Ok(VoteRemoved) && r2 == Ok(VoteAdded) && db2 == db
  {
    var k := VoteKey(caller, postId);
    assert db.votes - {k} + {k} == db.votes;
  }

  /** A successful cast raises the post's count by exactly one and leaves every other post's count. */
  lemma CastCountsOnce(db: Db, caller: int, postId: int, other: int)
    requires Consistent(db) && caller in db.users && postId in db.posts
    requires VoteKey(caller, postId) !in db.votes
    ensures var db' := VoteSpec(db, caller, VoteIn(postId, 1)).0;
      && Posts.VoteCount(db'.votes, postId) == Posts.VoteCount(db.votes, postId) + 1
      && (other != postId ==> Posts.VoteCount(db'.votes, other) == Posts.VoteCount(db.votes, other))
  {
    var k := VoteKey(caller, postId);
    var db' := VoteSpec(db, caller, VoteIn(postId, 1)).0;
    assert db'.votes == db.votes + {k};
    var before := set w | w in db.votes && w.postId == postId;
    assert (set w | w in db'.votes && w.postId == postId) == before + {k};
    if other != postId {
      assert (set w | w in db'.votes && w.postId == other) == (set w | w in db.votes && w.postId == other);
    }
  }

  /** vote: proved to move the store exactly as VoteSpec does. */
  method Vote(s: Store, caller: int, v: VoteIn) returns (r: Result<VoteMessage, Error>)
    requires s.Valid()
    modifies s
    ensures s.Valid()
    ensures (s.State(), r) == VoteSpec(old(s.State()), caller, v)
  {
    if v.postId !in s.posts {
      return Err(NotFound);
    }
    var k := VoteKey(caller, v.postId);
    var found := k in s.votes;
    if v.dir == 1 {
      if found {
        return Err(Conflict);
      }
      var added := s.AddVote(k);
      r := if added.Ok? then Ok(VoteAdded) else Err(added.error);
    } else {
      if !found {
        return Err(NotFound);
      }
      s.RemoveVote(k);
      r := Ok(VoteRemoved);
    }
  }
}
