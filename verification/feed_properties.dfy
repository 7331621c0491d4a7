/** What the page views promise about which posts appear where, how many there
    are, and how they split into pages. */
module FeedProperties {
  import opened Entities
  import Pagination
  import Follows
  import opened Feeds

  /** A post in group `g` is on the index, in `g`'s listing and in its
      author's listing, and in no other group's listing. */
  lemma PostVisibleInItsFeedsOnly(s: Store, p: PostId, g: GroupId, other: GroupId)
    requires Valid(s)
    requires p in s.posts && s.posts[p].group == Some(g)
    requires other != g
    ensures p in Posts(s, Everything)
    ensures p in Posts(s, InGroup(g))
    ensures p in Posts(s, ByAuthor(s.posts[p].author))
    ensures p !in Posts(s, InGroup(other))
  {
    var r := Posts(s, InGroup(other));
    assert forall i :: 0 <= i < |r| ==> r[i] != p;
  }

  /** Whatever page of another group's feed is requested, the post is not on it. */
  lemma PostAbsentFromOtherGroupPages(s: Store, p: PostId, slug: string, number: Option<int>, size: nat)
    requires size > 0
    requires p in s.posts
    requires GroupPage(s, slug, number, size).Ok?
    requires s.posts[p].group != GroupBySlug(s, slug)
    ensures p !in GroupPage(s, slug, number, size).value
  {
    var g := GroupBySlug(s, slug).value;
    var all := Posts(s, InGroup(g));
    var page := GroupPage(s, slug, number, size).value;
    assert p !in all;
    var start := Pagination.PageStart(Pagination.PageNumber(number, |all|, size), size);
    forall i | 0 <= i < |page| ensures page[i] != p {
      assert page[i] == all[start + i];
    }
  }

  /** The following feed holds exactly the posts whose author the viewer follows. */
  lemma FollowFeedMembers(s: Store, u: UserId, p: PostId)
    requires Valid(s)
    ensures p in FollowFeed(s, u) <==> p in s.posts && Follows.IsFollowing(s, u, s.posts[p].author)
  {
    if p in s.posts {
      Follows.FollowingOfIsFollowing(s, u, s.posts[p].author);
    }
  }

  /** A viewer who follows nobody has an empty following feed. */
  lemma FollowFeedEmptyWithoutEdges(s: Store, u: UserId)
    requires forall f :: f in s.follows ==> s.follows[f].user != u
    ensures FollowFeed(s, u) == []
  {
    assert Follows.FollowingOf(s, u) == {};
    var r := FollowFeed(s, u);
    assert |r| > 0 ==> InScope(s.posts[r[0]], AuthorIn(Follows.FollowingOf(s, u)));
  }

  /** A post by a followed author is on the viewer's following page: on the
      page its feed position falls on, and on the first page when the feed
      fits on one page. */
  lemma FollowedPostOnFollowPage(s: Store, u: UserId, p: PostId, size: nat)
    requires Valid(s) && size > 0
    requires u in s.users && p in s.posts
    requires Follows.IsFollowing(s, u, s.posts[p].author)
    ensures exists k :: 1 <= k <= Pagination.NumPages(|FollowFeed(s, u)|, size) && p in FollowPage(s, Some(u), Some(k), size).value
    ensures |FollowFeed(s, u)| <= size ==> p in FollowPage(s, Some(u), None, size).value
  {
    var feed := FollowFeed(s, u);
    FollowFeedMembers(s, u, p);
    Pagination.ListedItemOnSomePage(feed, p, size);
    assert forall number :: FollowPage(s, Some(u), number, size).value == Pagination.Page(feed, number, size);
  }

  /** A viewer who follows nobody sees an empty following page, whatever page they ask for. */
  lemma FollowPageEmptyWithoutEdges(s: Store, u: UserId, number: Option<int>, size: nat)
    requires size > 0 && u in s.users
    requires forall f :: f in s.follows ==> s.follows[f].user != u
    ensures FollowPage(s, Some(u), number, size) == Ok([])
  {
    FollowFeedEmptyWithoutEdges(s, u);
  }

  /** When every post is in a scope, the scope's listing has one entry per post. */
  lemma FullScopeLength(s: Store, scope: Scope)
    requires Valid(s)
    requires forall p :: p in s.posts ==> InScope(s.posts[p], scope)
    ensures |Posts(s, scope)| == |s.posts|
  {
    PostsLength(s, scope);
    assert InScopeSet(s, scope) == s.posts.Keys;
  }

  /** A scope holding exactly one post lists just that post. */
  lemma SingletonListing(s: Store, scope: Scope, p: PostId)
    requires Valid(s)
    requires s.posts.Keys == {p} && InScope(s.posts[p], scope)
    ensures Posts(s, scope) == [p]
  {
    assert |s.posts| == 1 by { assert s.posts.Keys == {p}; }
    FullScopeLength(s, scope);
  }

  /** The single-post store of the view tests: that post is the whole first
      page of the index, of its group and of its author's profile, and the
      author's post count is 1 on the profile and on the post detail page. */
  lemma SinglePostOnEveryPage(s: Store, p: PostId, size: nat)
    requires Valid(s) && size > 0
    requires s.posts.Keys == {p}
    requires s.posts[p].group.Some?
    ensures IndexPage(s, None, size) == [p]
    ensures GroupPage(s, s.groups[s.posts[p].group.value].slug, None, size) == Ok([p])
    ensures ProfilePage(s, s.posts[p].author, None, size) == Ok(ProfileView([p], 1))
    ensures PostDetail(s, p).Ok? && PostDetail(s, p).value.totalPostsUser == 1
  {
    var post := s.posts[p];
    var g := post.group.value;
    var slug := s.groups[g].slug;
    SingletonListing(s, Everything, p);
    SingletonListing(s, InGroup(g), p);
    SingletonListing(s, ByAuthor(post.author), p);
    assert GroupBySlug(s, slug) == Some(g) by {
      assert SlugTaken(s.groups, slug);
    }
    Pagination.OnePageListing([p], size);
  }

  /** The paginator tests: with every post by one author in one group and
      between one and two pages of posts, page 1 of the index, group and
      profile feeds is full and page 2 holds the remainder. */
  lemma PaginatorFeeds(s: Store, u: UserId, g: GroupId, size: nat)
    requires Valid(s) && size > 0
    requires u in s.users && g in s.groups
    requires forall p :: p in s.posts ==> s.posts[p].author == u && s.posts[p].group == Some(g)
    requires size < |s.posts| < 2 * size
    ensures |IndexPage(s, None, size)| == size
    ensures |IndexPage(s, Some(2), size)| == |s.posts| % size
    ensures var slug := s.groups[g].slug;
      && GroupPage(s, slug, None, size).Ok? && |GroupPage(s, slug, None, size).value| == size
      && GroupPage(s, slug, Some(2), size).Ok? && |GroupPage(s, slug, Some(2), size).value| == |s.posts| % size
    ensures |ProfilePage(s, u, None, size).value.page| == size
    ensures |ProfilePage(s, u, Some(2), size).value.page| == |s.posts| % size
  {
    var slug := s.groups[g].slug;
    assert GroupBySlug(s, slug) == Some(g) by {
      assert SlugTaken(s.groups, slug);
    }
    FullScopeLength(s, Everything);
    FullScopeLength(s, InGroup(g));
    FullScopeLength(s, ByAuthor(u));
    Pagination.FirstPageFull(Posts(s, Everything), size);
    Pagination.FirstPageFull(Posts(s, InGroup(g)), size);
    Pagination.FirstPageFull(Posts(s, ByAuthor(u)), size);
    Pagination.SecondPageRemainder(Posts(s, Everything), size);
    Pagination.SecondPageRemainder(Posts(s, InGroup(g)), size);
    Pagination.SecondPageRemainder(Posts(s, ByAuthor(u)), size);
  }
}
