/** The follow graph: directed (user, author) edges stored as `Follow` rows
    under the `unique_followers` constraint. */
module Follows {
  import opened Entities

  /** Some row records that `u` follows `a`. */
  predicate IsFollowing(s: Store, u: UserId, a: UserId) {
    exists f :: f in s.follows && s.follows[f] == Follow(u, a)
  }

  /** The authors `u` follows. */
  function FollowingOf(s: Store, u: UserId): set<UserId> {
    set f | f in s.follows && s.follows[f].user == u :: s.follows[f].author
  }

  lemma FollowingOfIsFollowing(s: Store, u: UserId, a: UserId)
    ensures a in FollowingOf(s, u) <==> IsFollowing(s, u, a)
  {
    if IsFollowing(s, u, a) {
      var f :| f in s.follows && s.follows[f] == Follow(u, a);
      assert s.follows[f].author == a;
    }
  }

  /** Follow `author` on behalf of the logged-in `viewer`. An existing edge is
      left alone: the constraint never lets a second row with the same pair in. */
  function DoFollow(s: Store, viewer: Option<UserId>, author: UserId): (r: Result<Store>)
    ensures r == Err(Unauthorized) <==> !Authenticated(s, viewer)
    ensures r == Err(NotFound) <==> Authenticated(s, viewer) && author !in s.users
    ensures r.Ok? ==> IsFollowing(r.value, viewer.value, author)
    ensures r.Ok? ==> r.value == s.(follows := r.value.follows, nextFollow := r.value.nextFollow)
  {
    if !Authenticated(s, viewer) then Err(Unauthorized)
    else if author !in s.users then Err(NotFound)
    else if IsFollowing(s, viewer.value, author) then Ok(s)
    else
      var f := s.nextFollow;
      var s' := s.(follows := s.follows[f := Follow(viewer.value, author)], nextFollow := f + 1);
      assert s'.follows[f] == Follow(viewer.value, author);
      Ok(s')
  }

  /** Unfollow `author`: delete the rows carrying the pair. */
  function DoUnfollow(s: Store, viewer: Option<UserId>, author: UserId): (r: Result<Store>)
    ensures r == Err(Unauthorized) <==> !Authenticated(s, viewer)
    ensures r == Err(NotFound) <==> Authenticated(s, viewer) && author !in s.users
    ensures r.Ok? ==> !IsFollowing(r.value, viewer.value, author)
    ensures r.Ok? ==> r.value == s.(follows := r.value.follows)
    ensures r.Ok? ==> forall f :: f in s.follows && s.follows[f] != Follow(viewer.value, author) ==>
                        f in r.value.follows && r.value.follows[f] == s.follows[f]
    ensures r.Ok? ==> r.value.follows.Keys <= s.follows.Keys
  {
    if !Authenticated(s, viewer) then Err(Unauthorized)
    else if author !in s.users then Err(NotFound)
    else
      var e := Follow(viewer.value, author);
      Ok(s.(follows := map f | f in s.follows && s.follows[f] != e :: s.follows[f]))
  }

  lemma FollowPreservesValid(s: Store, viewer: Option<UserId>, author: UserId)
    requires Valid(s)
    requires DoFollow(s, viewer, author).Ok?
    ensures Valid(DoFollow(s, viewer, author).value)
  {
    var s' := DoFollow(s, viewer, author).value;
    if !IsFollowing(s, viewer.value, author) {
      var n := s.nextFollow;
      assert n !in s.follows;
      forall i, j | i in s'.follows && j in s'.follows && s'.follows[i] == s'.follows[j]
        ensures i == j
      {
        if i != n && j != n {
          assert s.follows[i] == s.follows[j];
        }
      }
    }
  }

  /** Following an author not yet followed adds exactly one edge, that edge
      is then present, and every earlier edge is kept. */
  lemma FollowAddsOneEdge(s: Store, u: UserId, author: UserId)
    requires Valid(s)
    requires u in s.users && author in s.users
    requires !IsFollowing(s, u, author)
    ensures DoFollow(s, Some(u), author).Ok?
    ensures var s' := DoFollow(s, Some(u), author).value;
      && |s'.follows| == |s.follows| + 1
      && IsFollowing(s', u, author)
      && (forall f :: f in s.follows ==> f in s'.follows && s'.follows[f] == s.follows[f])
      && Valid(s')
  {
    FollowNewEdge(s, u, author);
    FollowPreservesValid(s, Some(u), author);
  }

  /** The store after following a new author: one row more, under the next key. */
  lemma FollowNewEdge(s: Store, u: UserId, author: UserId)
    requires KeysBelowCounters(s)
    requires u in s.users && author in s.users
    requires !IsFollowing(s, u, author)
    ensures DoFollow(s, Some(u), author).Ok?
    ensures var s' := DoFollow(s, Some(u), author).value;
      && |s'.follows| == |s.follows| + 1
      && IsFollowing(s', u, author)
      && (forall f :: f in s.follows ==> f in s'.follows && s'.follows[f] == s.follows[f])
  {
    var n := s.nextFollow;
    var s' := s.(follows := s.follows[n := Follow(u, author)], nextFollow := n + 1);
    assert DoFollow(s, Some(u), author) == Ok(s');
    assert n !in s.follows;
    assert s'.follows[n] == Follow(u, author);
  }

  /** Following an author already followed leaves the store as it was. */
  lemma FollowTwiceNoSecondEdge(s: Store, u: UserId, author: UserId)
    requires u in s.users && author in s.users
    requires IsFollowing(s, u, author)
    ensures DoFollow(s, Some(u), author) == Ok(s)
  {
  }

  lemma UnfollowPreservesValid(s: Store, viewer: Option<UserId>, author: UserId)
    requires Valid(s)
    requires DoUnfollow(s, viewer, author).Ok?
    ensures Valid(DoUnfollow(s, viewer, author).value)
  {
    var s' := DoUnfollow(s, viewer, author).value;
    assert forall f :: f in s'.follows ==> f in s.follows && s'.follows[f] == s.follows[f];
  }

  /** Unfollowing a followed author removes exactly one edge, and the edge is gone. */
  lemma UnfollowRemovesOneEdge(s: Store, u: UserId, author: UserId)
    requires Valid(s)
    requires u in s.users && author in s.users
    requires IsFollowing(s, u, author)
    ensures DoUnfollow(s, Some(u), author).Ok?
    ensures var s' := DoUnfollow(s, Some(u), author).value;
      && |s'.follows| == |s.follows| - 1
      && !IsFollowing(s', u, author)
      && Valid(s')
  {
    var s' := DoUnfollow(s, Some(u), author).value;
    UnfollowPreservesValid(s, Some(u), author);
    var k :| k in s.follows && s.follows[k] == Follow(u, author);
    assert s'.follows.Keys == s.follows.Keys - {k};
  }

  /** Unfollowing right after following a new author restores the follow table. */
  lemma FollowThenUnfollowRestores(s: Store, u: UserId, author: UserId)
    requires Valid(s)
    requires u in s.users && author in s.users
    requires !IsFollowing(s, u, author)
    ensures DoFollow(s, Some(u), author).Ok?
    ensures DoUnfollow(DoFollow(s, Some(u), author).value, Some(u), author) == Ok(s.(nextFollow := s.nextFollow + 1))
  {
    var n := s.nextFollow;
    var s1 := DoFollow(s, Some(u), author).value;
    assert s1.follows == s.follows[n := Follow(u, author)];
    var s2 := DoUnfollow(s1, Some(u), author).value;
    assert n !in s.follows;
    assert s2.follows == s.follows;
  }
}
