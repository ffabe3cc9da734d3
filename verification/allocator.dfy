/** How create picks the id of a new return request. */
module Allocator {

  /** A set without members is the empty set. */
  lemma NoMemberMeansEmpty(s: set<int>)
    requires forall x :: x !in s
    ensures s == {}
  {
    var none: set<int> := {};
    assert forall x :: x in s <==> x in none;
  }

  /** A non-empty set has a member to choose. */
  lemma HasMember(s: set<int>)
    requires s != {}
    ensures exists x :: x in s
  {
    if forall x :: x !in s {
      NoMemberMeansEmpty(s);
      assert false;
    }
  }

  /** The largest element of a non-empty finite set of ids. */
  ghost function MaxOf(s: set<int>): (m: int)
    requires s != {}
    ensures m in s
    ensures forall k :: k in s ==> k <= m
    decreases s
  {
    HasMember(s);
    var x :| x in s;
    var rest := s - {x};
    assert forall k :: k in s ==> k == x || k in rest;
    if rest == {} then x
    else
      var m := MaxOf(rest);
      if x < m then m else x
  }

  /**
   * The id create assigns: the most recently released id when the pool of
   * released ids is non-empty; otherwise one more than the largest stored id;
   * or 1 when the table is empty or the query for the largest id fails.
   */
  ghost function NextId(pool: seq<int>, keys: set<int>, queryFails: bool): (id: int)
    ensures pool != [] ==> id == pool[|pool| - 1]
    ensures pool == [] && keys != {} && !queryFails ==>
              id - 1 in keys && forall k :: k in keys ==> k < id
    ensures pool == [] && (keys == {} || queryFails) ==> id == 1
  {
    if pool != [] then pool[|pool| - 1]
    else if keys != {} && !queryFails then MaxOf(keys) + 1
    else 1
  }

  /** The pool left after an allocation: the last released id is consumed, if there is one. */
  function Consume(pool: seq<int>): (rest: seq<int>)
    ensures pool != [] ==> pool == rest + [pool[|pool| - 1]]
    ensures pool == [] ==> rest == []
  {
    if pool == [] then [] else pool[..|pool| - 1]
  }
}
