/** Read-side views of the store: the post listings behind the index, group,
    profile and following pages, their one-based pagination, and the post
    detail page with its comments. */
module Feeds {
  import opened Entities
  import Listing
  import Pagination
  import Follows

  /** Which posts a page lists. */
  datatype Scope = Everything | InGroup(group: GroupId) | ByAuthor(author: UserId) | AuthorIn(authors: set<UserId>)

  predicate InScope(p: Post, scope: Scope) {
    match scope
    case Everything => true
    case InGroup(g) => p.group == Some(g)
    case ByAuthor(u) => p.author == u
    case AuthorIn(us) => p.author in us
  }

  /** `InScope` as a filter over rows. */
  function ScopeFilter(scope: Scope): Post -> bool {
    (p: Post) => InScope(p, scope)
  }

  /** The filter selecting the comments of post `p`. */
  function CommentFilter(p: PostId): Comment -> bool {
    (c: Comment) => c.post == Some(p)
  }

  function PubDate(p: Post): int { p.pubDate }

  function Created(c: Comment): int { c.created }

  /** The posts in `scope`, newest first by publication date. */
  function Posts(s: Store, scope: Scope): (r: seq<PostId>)
    ensures forall i :: 0 <= i < |r| ==> r[i] in s.posts && InScope(s.posts[r[i]], scope)
    ensures KeysBelowCounters(s) ==> forall p :: p in s.posts && InScope(s.posts[p], scope) ==> p in r
    ensures StampsMonotone(s) ==>
      forall i, j :: 0 <= i < j < |r| ==> s.posts[r[i]].pubDate > s.posts[r[j]].pubDate
  {
    Listing.NewestFirst(s.posts, ScopeFilter(scope), s.nextPost)
  }

  /** The posts in `scope`, as a set. */
  function InScopeSet(s: Store, scope: Scope): set<PostId> {
    set p | p in s.posts && InScope(s.posts[p], scope)
  }

  /** The number of posts in `scope`, as a count query computes it. */
  ghost function CountInScope(s: Store, scope: Scope): nat {
    |InScopeSet(s, scope)|
  }

  /** A listing holds each post of its scope exactly once. */
  lemma PostsLength(s: Store, scope: Scope)
    requires Valid(s)
    ensures |Posts(s, scope)| == CountInScope(s, scope)
  {
    var keep := ScopeFilter(scope);
    Listing.NewestFirstCount(s.posts, keep, s.nextPost);
    assert Listing.Matching(s.posts, keep, s.nextPost) == InScopeSet(s, scope);
  }

  /** Newest-first by publication date is the only order a listing can have:
      any date-descending sequence of exactly the scope's posts is `Posts`. */
  lemma PostsOrderIsUnique(s: Store, scope: Scope, other: seq<PostId>)
    requires Valid(s)
    requires Listing.DescendingBy(s.posts, PubDate, other)
    requires forall p :: p in other <==> p in s.posts && InScope(s.posts[p], scope)
    ensures other == Posts(s, scope)
  {
    var r := Posts(s, scope);
    Listing.NewestFirstDescending(s.posts, PubDate, ScopeFilter(scope), s.nextPost);
    Listing.DescendingUnique(s.posts, PubDate, r, other);
  }

  /** The group whose slug is `slug`, searching the keys below `n`. */
  function FindSlug(groups: map<GroupId, Group>, slug: string, n: nat): (r: Option<GroupId>)
    ensures r.Some? ==> r.value in groups && groups[r.value].slug == slug
    ensures r.None? ==> forall g :: g < n && g in groups ==> groups[g].slug != slug
  {
    if n == 0 then None
    else if n - 1 in groups && groups[n - 1].slug == slug then Some(n - 1)
    else FindSlug(groups, slug, n - 1)
  }

  /** Look a group up by slug; in a valid store the answer is the one group carrying it. */
  function GroupBySlug(s: Store, slug: string): (r: Option<GroupId>)
    ensures r.Some? ==> r.value in s.groups && s.groups[r.value].slug == slug
    ensures KeysBelowCounters(s) && r.None? ==> !SlugTaken(s.groups, slug)
  {
    FindSlug(s.groups, slug, s.nextGroup)
  }

  // ---------------------------------------------------------------------------
  // Pages

  /** The home page: page `number` of every post, newest first. */
  function IndexPage(s: Store, number: Option<int>, size: nat): (r: seq<PostId>)
    requires size > 0
    ensures |r| <= size
    ensures Pagination.IsPageOf(r, Posts(s, Everything), number, size)
    ensures forall i :: 0 <= i < |r| ==> r[i] in s.posts
    ensures KeysBelowCounters(s) && |s.posts| > 0 ==> |r| > 0
  {
    var all := Posts(s, Everything);
    assert KeysBelowCounters(s) && |s.posts| > 0 ==> |all| > 0 by {
      if KeysBelowCounters(s) && |s.posts| > 0 {
        var p :| p in s.posts;
        assert p in all;
      }
    }
    Pagination.Page(all, number, size)
  }

  /** The group page: page `number` of the group's posts, newest first; an
      unknown slug is not found. */
  function GroupPage(s: Store, slug: string, number: Option<int>, size: nat): (r: Result<seq<PostId>>)
    requires size > 0
    ensures r.Err? <==> GroupBySlug(s, slug).None?
    ensures r.Err? ==> r.error == NotFound
    ensures r.Ok? ==> |r.value| <= size
    ensures r.Ok? ==> Pagination.IsPageOf(r.value, Posts(s, InGroup(GroupBySlug(s, slug).value)), number, size)
    ensures r.Ok? ==> forall i :: 0 <= i < |r.value| ==>
      && r.value[i] in s.posts && s.posts[r.value[i]].group.Some?
      && s.posts[r.value[i]].group.value in s.groups && s.groups[s.posts[r.value[i]].group.value].slug == slug
  {
    match GroupBySlug(s, slug)
    case None => Err(NotFound)
    case Some(g) => Ok(Pagination.Page(Posts(s, InGroup(g)), number, size))
  }

  datatype ProfileView = ProfileView(page: seq<PostId>, postCount: nat)

  /** The profile page of `author`: page `number` of their posts, newest
      first, with the author's total number of posts. */
  function ProfilePage(s: Store, author: UserId, number: Option<int>, size: nat): (r: Result<ProfileView>)
    requires size > 0
    ensures r.Err? <==> author !in s.users
    ensures r.Err? ==> r.error == NotFound
    ensures r.Ok? ==> |r.value.page| <= size
    ensures r.Ok? ==> Pagination.IsPageOf(r.value.page, Posts(s, ByAuthor(author)), number, size)
    ensures r.Ok? ==> forall i :: 0 <= i < |r.value.page| ==>
      r.value.page[i] in s.posts && s.posts[r.value.page[i]].author == author
    ensures r.Ok? && Valid(s) ==> r.value.postCount == CountInScope(s, ByAuthor(author))
  {
    if author !in s.users then Err(NotFound)
    else
      var all := Posts(s, ByAuthor(author));
      PostsLengthIfValid(s, ByAuthor(author));
      Ok(ProfileView(Pagination.Page(all, number, size), |all|))
  }

  /** The following page of the logged-in viewer: page `number` of the posts
      by the authors they follow, newest first. */
  function FollowPage(s: Store, viewer: Option<UserId>, number: Option<int>, size: nat): (r: Result<seq<PostId>>)
    requires size > 0
    ensures r.Err? <==> !Authenticated(s, viewer)
    ensures r.Err? ==> r.error == Unauthorized
    ensures r.Ok? ==> |r.value| <= size
    ensures r.Ok? ==> Pagination.IsPageOf(r.value, FollowFeed(s, viewer.value), number, size)
    ensures r.Ok? ==> forall i :: 0 <= i < |r.value| ==>
      r.value[i] in s.posts && Follows.IsFollowing(s, viewer.value, s.posts[r.value[i]].author)
  {
    if !Authenticated(s, viewer) then Err(Unauthorized)
    else Ok(Pagination.Page(FollowFeed(s, viewer.value), number, size))
  }

  /** The unpaginated following feed of `u`. */
  function FollowFeed(s: Store, u: UserId): seq<PostId> {
    Posts(s, AuthorIn(Follows.FollowingOf(s, u)))
  }

  /** The comments of post `p`, newest first by creation instant. */
  function Comments(s: Store, p: PostId): (r: seq<CommentId>)
    ensures forall i :: 0 <= i < |r| ==> r[i] in s.comments && s.comments[r[i]].post == Some(p)
    ensures KeysBelowCounters(s) ==> forall c :: c in s.comments && s.comments[c].post == Some(p) ==> c in r
    ensures StampsMonotone(s) ==>
      forall i, j :: 0 <= i < j < |r| ==> s.comments[r[i]].created > s.comments[r[j]].created
  {
    Listing.NewestFirst(s.comments, CommentFilter(p), s.nextComment)
  }

  /** The comments attached to `p`, as a set. */
  ghost function CommentSet(s: Store, p: PostId): set<CommentId> {
    set c | c in s.comments && s.comments[c].post == Some(p)
  }

  /** The number of comments attached to `p`, as `post.comments.count()` computes it. */
  ghost function CommentCount(s: Store, p: PostId): nat {
    |CommentSet(s, p)|
  }

  lemma CommentsLength(s: Store, p: PostId)
    requires Valid(s)
    ensures |Comments(s, p)| == CommentCount(s, p)
  {
    var keep := CommentFilter(p);
    Listing.NewestFirstCount(s.comments, keep, s.nextComment);
    assert Listing.Matching(s.comments, keep, s.nextComment) == CommentSet(s, p);
  }

  datatype DetailView = DetailView(post: Post, totalPostsUser: nat, comments: seq<CommentId>)

  /** The post detail page: the post, how many posts its author has, and its comments. */
  function PostDetail(s: Store, p: PostId): (r: Result<DetailView>)
    ensures r.Err? <==> p !in s.posts
    ensures r.Err? ==> r.error == NotFound
    ensures r.Ok? ==> r.value.post == s.posts[p]
    ensures r.Ok? && Valid(s) ==> r.value.totalPostsUser == CountInScope(s, ByAuthor(s.posts[p].author))
    ensures r.Ok? ==> forall i :: 0 <= i < |r.value.comments| ==>
      r.value.comments[i] in s.comments && s.comments[r.value.comments[i]].post == Some(p)
    ensures r.Ok? && KeysBelowCounters(s) ==> forall c :: c in s.comments && s.comments[c].post == Some(p) ==> c in r.value.comments
    ensures r.Ok? && StampsMonotone(s) ==> forall i, j :: 0 <= i < j < |r.value.comments| ==>
      s.comments[r.value.comments[i]].created > s.comments[r.value.comments[j]].created
    ensures r.Ok? && Valid(s) ==> |r.value.comments| == CommentCount(s, p)
  {
    if p !in s.posts then Err(NotFound)
    else
      var post := s.posts[p];
      PostsLengthIfValid(s, ByAuthor(post.author));
      CommentsLengthIfValid(s, p);
      Ok(DetailView(post, |Posts(s, ByAuthor(post.author))|, Comments(s, p)))
  }

  lemma PostsLengthIfValid(s: Store, scope: Scope)
    ensures Valid(s) ==> |Posts(s, scope)| == CountInScope(s, scope)
  {
    if Valid(s) {
      PostsLength(s, scope);
    }
  }

  lemma CommentsLengthIfValid(s: Store, p: PostId)
    ensures Valid(s) ==> |Comments(s, p)| == CommentCount(s, p)
  {
    if Valid(s) {
      CommentsLength(s, p);
    }
  }
}
