/** Deletion with the referential actions the schema declares: a post's author
    and a follow edge's endpoints cascade, a comment's post and author cascade,
    and a post's group is set to none. */
module Referential {
  import opened Entities
  import Feeds

  /** The comment hangs off one of `ids`. */
  predicate OnPostIn(c: Comment, ids: set<PostId>) {
    c.post.Some? && c.post.value in ids
  }

  /** Delete the posts `ids`; their comments go with them. */
  function DeletePosts(s: Store, ids: set<PostId>): (r: Store)
    ensures r.posts.Keys == s.posts.Keys - ids
    ensures forall p :: p in r.posts ==> r.posts[p] == s.posts[p]
    ensures forall c :: c in r.comments <==> c in s.comments && !OnPostIn(s.comments[c], ids)
    ensures forall c :: c in r.comments ==> r.comments[c] == s.comments[c]
    ensures r == s.(posts := r.posts, comments := r.comments)
  {
    s.(posts := map p | p in s.posts && p !in ids :: s.posts[p],
       comments := map c | c in s.comments && !OnPostIn(s.comments[c], ids) :: s.comments[c])
  }

  /** Delete one post and, by cascade, exactly the comments attached to it. */
  function DeletePost(s: Store, p: PostId): (r: Store)
    ensures p !in r.posts
    ensures forall q :: q in s.posts && q != p ==> q in r.posts && r.posts[q] == s.posts[q]
    ensures forall c :: c in r.comments ==> r.comments[c].post != Some(p)
    ensures forall c :: c in s.comments && s.comments[c].post != Some(p) ==> c in r.comments && r.comments[c] == s.comments[c]
  {
    DeletePosts(s, {p})
  }

  /** Delete every post at once; every comment on them goes too. */
  function DeleteAllPosts(s: Store): (r: Store)
    ensures r.posts == map[]
    ensures forall c :: c in r.comments ==> !OnPostIn(r.comments[c], s.posts.Keys)
    ensures r.users == s.users && r.groups == s.groups && r.follows == s.follows
  {
    DeletePosts(s, s.posts.Keys)
  }

  /** Delete a user together with everything that cascades from them. */
  function DeleteUser(s: Store, u: UserId): (r: Store)
    ensures r.users == s.users - {u}
    ensures r.groups == s.groups
    ensures r.posts.Keys <= s.posts.Keys && r.comments.Keys <= s.comments.Keys && r.follows.Keys <= s.follows.Keys
  {
    var s1 := DeletePosts(s, Feeds.InScopeSet(s, Feeds.ByAuthor(u)));
    s1.(users := s.users - {u},
        comments := map c | c in s1.comments && s1.comments[c].author != Some(u) :: s1.comments[c],
        follows := map f | f in s.follows && s.follows[f].user != u && s.follows[f].author != u :: s.follows[f])
  }

  /** Deleting a user removes every post they wrote and keeps every other post unchanged. */
  lemma DeleteUserRemovesPosts(s: Store, u: UserId)
    ensures var r := DeleteUser(s, u);
      && (forall p :: p in r.posts ==> r.posts[p].author != u)
      && (forall p :: p in s.posts && s.posts[p].author != u ==> p in r.posts && r.posts[p] == s.posts[p])
  {
  }

  /** Deleting a user removes every comment they wrote and every comment on
      their posts; every other comment is kept unchanged. */
  lemma DeleteUserRemovesComments(s: Store, u: UserId)
    ensures var r := DeleteUser(s, u);
      && (forall c :: c in r.comments ==> r.comments[c].author != Some(u))
      && (forall c :: c in r.comments ==> !OnPostIn(r.comments[c], Feeds.InScopeSet(s, Feeds.ByAuthor(u))))
      && (forall c :: c in s.comments && s.comments[c].author != Some(u) && !OnPostIn(s.comments[c], Feeds.InScopeSet(s, Feeds.ByAuthor(u)))
                      ==> c in r.comments && r.comments[c] == s.comments[c])
  {
  }

  /** Deleting a user removes every follow edge with that user at either end
      and keeps every other edge. */
  lemma DeleteUserRemovesFollows(s: Store, u: UserId)
    ensures var r := DeleteUser(s, u);
      && (forall f :: f in r.follows ==> r.follows[f].user != u && r.follows[f].author != u)
      && (forall f :: f in s.follows && s.follows[f].user != u && s.follows[f].author != u
                      ==> f in r.follows && r.follows[f] == s.follows[f])
  {
  }

  /** Delete a group: its posts stay, with their group set to none and every other field as it was. */
  function DeleteGroup(s: Store, g: GroupId): (r: Store)
    ensures g !in r.groups
    ensures r.groups.Keys == s.groups.Keys - {g}
    ensures r.posts.Keys == s.posts.Keys
    ensures forall p :: p in s.posts && s.posts[p].group == Some(g) ==>
                          r.posts[p] == s.posts[p].(group := None)
    ensures forall p :: p in s.posts && s.posts[p].group != Some(g) ==> r.posts[p] == s.posts[p]
    ensures forall p :: p in r.posts ==> r.posts[p].group != Some(g)
    ensures r.users == s.users && r.comments == s.comments && r.follows == s.follows
  {
    s.(groups := map h | h in s.groups && h != g :: s.groups[h],
       posts := map p | p in s.posts :: if s.posts[p].group == Some(g) then s.posts[p].(group := None) else s.posts[p])
  }

  lemma DeletePostsPreservesValid(s: Store, ids: set<PostId>)
    requires Valid(s)
    ensures Valid(DeletePosts(s, ids))
  {
    var r := DeletePosts(s, ids);
    assert ReferencesIntact(r) by {
      forall c | c in r.comments && r.comments[c].post.Some?
        ensures r.comments[c].post.value in r.posts
      {
        assert !OnPostIn(s.comments[c], ids);
      }
    }
  }

  lemma DeleteUserPreservesValid(s: Store, u: UserId)
    requires Valid(s)
    ensures Valid(DeleteUser(s, u))
  {
    var authored := Feeds.InScopeSet(s, Feeds.ByAuthor(u));
    var r := DeleteUser(s, u);
    DeleteUserRemovesPosts(s, u);
    DeleteUserRemovesComments(s, u);
    DeleteUserRemovesFollows(s, u);
    assert ReferencesIntact(r) by {
      forall c | c in r.comments && r.comments[c].post.Some?
        ensures r.comments[c].post.value in r.posts
      {
        var p := r.comments[c].post.value;
        assert p in s.posts && p !in authored;
      }
    }
    assert UniqueFollows(r.follows) by {
      forall i, j | i in r.follows && j in r.follows && r.follows[i] == r.follows[j] ensures i == j {
        assert s.follows[i] == s.follows[j];
      }
    }
    assert StampsMonotone(r) by {
      assert forall p :: p in r.posts ==> p in s.posts && r.posts[p] == s.posts[p];
      assert forall c :: c in r.comments ==> c in s.comments && r.comments[c] == s.comments[c];
    }
  }

  lemma DeleteGroupPreservesValid(s: Store, g: GroupId)
    requires Valid(s)
    ensures Valid(DeleteGroup(s, g))
  {
    var r := DeleteGroup(s, g);
    assert GroupsWellFormed(r.groups) by {
      forall h, k | h in r.groups && k in r.groups && r.groups[h].slug == r.groups[k].slug ensures h == k {
        assert s.groups[h].slug == s.groups[k].slug;
      }
    }
    assert StampsMonotone(r) by {
      forall p, q | p in r.posts && q in r.posts && p < q ensures r.posts[p].pubDate < r.posts[q].pubDate {
        assert r.posts[p].pubDate == s.posts[p].pubDate;
        assert r.posts[q].pubDate == s.posts[q].pubDate;
      }
    }
  }
}
