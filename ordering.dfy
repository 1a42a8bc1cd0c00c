/** `ORDER BY id`: the ascending enumeration of a finite set of row ids. */
module Ordering {

  predicate StrictlyAscending(s: seq<int>)
  {
    forall i, j :: 0 <= i < j < |s| ==> s[i] < s[j]
  }

  /** A set is empty or has a member. */
  lemma Inhabited(s: set<int>)
    ensures s == {} || exists x :: x in s
  {
    if forall x :: x !in s {
      assert s == {};
    }
  }

  /** Every non-empty finite set of ids has a least element. */
  lemma {:induction false} LeastExists(ids: set<int>)
    requires ids != {}
    ensures exists m :: m in ids && forall x :: x in ids ==> m <= x
  {
    Inhabited(ids);
    var y :| y in ids;
    if ids != {y} {
      var rest := ids - {y};
      LeastExists(rest);
      var m :| m in rest && forall x :: x in rest ==> m <= x;
      var least := if y < m then y else m;
      forall x | x in ids ensures least <= x {
        if x != y { assert x in rest; }
      }
    } else {
      forall x | x in ids ensures y <= x { assert x == y; }
    }
  }

  /** The least id of a non-empty set. */
  function Least(ids: set<int>): (m: int)
    requires ids != {}
    ensures m in ids && forall x :: x in ids ==> m <= x
  {
    LeastExists(ids);
    var m :| m in ids && forall x :: x in ids ==> m <= x;
    m
  }

  /** The ids of the set in ascending order, each once. */
  function SortedIds(ids: set<int>): (r: seq<int>)
    ensures |r| == |ids|
    ensures forall x :: x in ids <==> x in r
    ensures StrictlyAscending(r)
    decreases |ids|
  {
    if ids == {} then []
    else
      var m := Least(ids);
      var rest := SortedIds(ids - {m});
      assert forall i :: 0 <= i < |rest| ==> m < rest[i] by {
        forall i | 0 <= i < |rest| ensures m < rest[i] { assert rest[i] in ids - {m}; }
      }
      [m] + rest
  }
}
