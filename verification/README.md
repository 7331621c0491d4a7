# Yatube entity store, feeds and follow graph in Dafny

Yatube is a small blogging platform. Users write posts, optionally inside a group.
Users comment on posts and follow other users to get a personal feed. This project
models the in-memory core behind it:

- **The entity store** (`entities.dfy`, module `Entities`). Users form a set. Groups,
  posts, comments and follow edges are maps from an auto-increment primary key to the
  row. A single creation counter, `clock`, stands for the instant that `auto_now_add`
  stamps onto `Post.pub_date` and `Comment.created`. The invariant `Valid` says:
  - every foreign key points at an existing row;
  - follow pairs are unique (the `unique_followers` constraint);
  - group slugs are unique, well formed and at most 50 characters long;
  - keys lie below their counters;
  - stamps lie in the past and grow with the key.
- **Referential actions** (`referential.dfy`, module `Referential`):
  - deleting a user cascades to their posts, their comments and every follow edge at
    either end;
  - deleting a post cascades to its comments;
  - deleting a group sets its posts' group to none.
- **Listings** (`listing.dfy`, module `Listing`): a generic newest-first listing of a
  table. Because stamps grow with keys, listing by descending key is listing by
  descending stamp. That order is also the only one a stamp-descending listing of the
  same rows can have.
- **Pagination** (`pagination.dfy`, module `Pagination`): one-based page slices with a
  page size `size > 0`. The size stands for `POSTS_COUNT`, whose value lives in the
  views module. The requested page number is resolved as Django's
  `Paginator.get_page` resolves the `page` query parameter.
- **Feeds** (`feeds.dfy` and `feed_properties.dfy`, modules `Feeds` and
  `FeedProperties`):
  - the index, group, profile (with its post count) and following pages;
  - the post detail page (with the author's post count and the comments).
- **Follow graph** (`follows.dfy`, module `Follows`): follow and unfollow as store
  transitions.
- **Forms** (`forms.dfy`, module `Forms`): create post, edit post and add comment as
  store transitions.
- **Index cache** (`index_cache.dfy`, module `IndexCache`): either empty or holding one
  rendered first index page. A held page is served until `clear`.
- **Reachability** (`reachability.dfy`, module `Reachability`): every store reached
  from the empty store by the operations above is `Valid`.

Every operation is a pure function. Requests carry the viewer as an optional user id.
A missing viewer, or an id that is not a user, is `Unauthorized`. A rejected request
leaves the store unchanged.

The view module of the application, `posts/views.py`, is not part of this model.
Feed, pagination, follow, form and cache behaviour therefore follows what
`posts/tests/test_views.py` and `posts/tests/test_forms.py` assert. Where the tests
leave a case open, the model makes these choices:

- The page number follows Django's `Paginator.get_page` with no orphans. A missing or
  non-integer `page` parameter (`None` in the model) gives page 1. A number below 1 or
  past the last page gives the last page. An empty listing has one empty page. So no
  request gets an empty page unless the whole listing is empty.
- Following an author who is already followed leaves the store unchanged.

## Model

| member | source | states |
|---|---|---|
| Entities.RegisterUser | yatube/posts/models.py:5 | Registering succeeds exactly when the id is not yet a user; it adds the user and changes nothing else. |
| Entities.AddGroup | yatube/posts/models.py:45-51 | A group is created exactly when its slug is a non-empty run of letters, digits, `-` and `_` of at most 50 characters that no group uses, its title has 1 to 200 characters, and its description is non-empty. |
| Entities.AddGroupPreservesValid | yatube/posts/models.py:47-50 | A created group is a new row with the submitted fields. Slugs stay pairwise distinct and at most 50 long, the group count grows by one, and no other table changes. |
| Listing.NewestFirst | yatube/posts/models.py:38-39 | A listing holds exactly the matching rows, each once, in strictly descending key order. |
| Listing.NewestFirstCount | yatube/posts/tests/test_views.py:110-128 | A listing's length equals the number of matching rows, which is what a count query returns. |
| Listing.DescendingUnique | yatube/posts/models.py:38-39 | Two strictly stamp-descending listings of the same rows are equal, so newest-first is a unique order. |
| Pagination.PageNumber | yatube/posts/tests/test_views.py:211-214 | The resolved page lies between 1 and the page count, and a requested number in that range is kept, as with `?page=2`. |
| Pagination.Page | yatube/posts/tests/test_views.py:189-242 | A page has at most `size` items. It is never empty unless the listing is. Its items are the listing's items from the resolved page's start `(k-1)*size` on, in order, and there are `min(size, n - start)` of them. |
| Pagination.OnePageListing | yatube/posts/tests/test_views.py:151-164 | A listing that fits on one page is shown whole, both with no page named and on page 1. |
| Pagination.FirstPageFull | yatube/posts/tests/test_views.py:207-209 | With at least `size` items, page 1 holds exactly the first `size` items, whether it is named or defaulted. |
| Pagination.SecondPageRemainder | yatube/posts/tests/test_views.py:211-214 | With `size < n < 2*size` items, page 2 holds the last `n mod size` items. |
| Pagination.LastPageSize | yatube/posts/tests/test_views.py:189-242 | The last page holds `n mod size` items, or a full page when that remainder is zero. |
| Pagination.PagesPrefix | yatube/posts/tests/test_views.py:189-242 | Pages 1 to `m`, concatenated, are the listing's first `min(m*size, n)` items. |
| Pagination.PagesCoverListing | yatube/posts/tests/test_views.py:189-242 | Concatenating all pages reproduces the listing, with nothing missing or repeated. |
| Pagination.PageIsOneOfPages | yatube/posts/tests/test_views.py:189-242 | Whatever number is requested, the page received is one of the pages that cover the listing. |
| Pagination.ItemOnItsPage | yatube/posts/tests/test_views.py:189-242 | The item at position `j` is on page `j / size + 1`, at position `j mod size` of that page. |
| Pagination.ListedItemOnSomePage | yatube/posts/tests/test_views.py:294-301 | Every listed item is on some page, and on the default page when the listing fits on one page. |
| Feeds.Posts | yatube/posts/models.py:38-39 | Every entry of a scope's listing is a post in the scope. When keys lie below the counter, every post in the scope is listed. When stamps grow with keys, the listing is strictly descending by `pub_date`. |
| Feeds.PostsLength | yatube/posts/tests/test_views.py:110-128 | A scope's listing has one entry per post in the scope. |
| Feeds.PostsOrderIsUnique | yatube/posts/models.py:38-39 | Any `pub_date`-descending sequence of exactly the scope's posts is that scope's listing. |
| Feeds.FindSlug | yatube/posts/models.py:47-50 | A found group carries the slug. When nothing is found, no group below the bound carries it. |
| Feeds.GroupBySlug | yatube/posts/models.py:47-50 | A found group carries the slug. In a store whose keys lie below the counter, nothing found means no group uses the slug. |
| Feeds.IndexPage | yatube/posts/tests/test_views.py:91-95 | The index page has at most `size` entries, all posts. It is the requested page of the newest-first listing of every post, and it is non-empty whenever a post exists. |
| Feeds.GroupPage | yatube/posts/tests/test_views.py:97-108 | The group page fails with not-found exactly when no group has the slug. Otherwise it has at most `size` entries, every one a post of the group carrying that slug, and it is the requested page of that group's newest-first listing. |
| Feeds.ProfilePage | yatube/posts/tests/test_views.py:110-118 | The profile fails with not-found exactly for a non-user. Otherwise its page has at most `size` entries, all by that author, and is the requested page of the author's newest-first listing. In a valid store, `post_count` is the number of posts by that author. |
| Feeds.FollowPage | yatube/posts/tests/test_views.py:294-309 | The following page is refused exactly when the viewer is not logged in. Otherwise it has at most `size` entries, each by an author the viewer follows, and is the requested page of the newest-first following feed. |
| Feeds.Comments | yatube/posts/models.py:83-84 | Every entry of a post's comment list is a comment on that post. When keys lie below the counter, every such comment is listed. When stamps grow with keys, the list is strictly newest first by `created`. |
| Feeds.CommentsLength | yatube/posts/tests/test_forms.py:129-141 | The comment list's length is the post's comment count. |
| Feeds.PostDetail | yatube/posts/tests/test_views.py:120-129 | The detail page fails exactly for a missing post and otherwise shows that post. Every listed comment is on that post. When keys lie below the counter, every comment on it is listed. When stamps grow with keys, the list is strictly newest first by `created`. In a valid store, `total_posts_user` is its author's post count and the list has one entry per comment. |
| FeedProperties.PostVisibleInItsFeedsOnly | yatube/posts/tests/test_views.py:151-173 | A post in group G is listed on the index, in G and in its author's profile, and in no other group. |
| FeedProperties.PostAbsentFromOtherGroupPages | yatube/posts/tests/test_views.py:166-173 | No page of another group's feed contains the post. |
| FeedProperties.FollowFeedMembers | yatube/posts/tests/test_views.py:294-309 | A post is in the viewer's following feed if and only if the viewer follows its author. |
| FeedProperties.FollowFeedEmptyWithoutEdges | yatube/posts/tests/test_views.py:303-309 | A viewer who follows nobody has an empty following feed. |
| FeedProperties.FollowedPostOnFollowPage | yatube/posts/tests/test_views.py:294-301 | A post by an author the viewer follows is on some page of the following page. When the feed fits on one page, it is on the default page. |
| FeedProperties.FollowPageEmptyWithoutEdges | yatube/posts/tests/test_views.py:303-309 | A viewer who follows nobody gets an empty following page, whatever page is requested. |
| FeedProperties.FullScopeLength | yatube/posts/tests/test_views.py:199-205 | When every post is in a scope, that scope's listing has one entry per post. |
| FeedProperties.SinglePostOnEveryPage | yatube/posts/tests/test_views.py:110-164 | With one post in a group, that post is the whole first page of the index, the group and the profile. The profile count and the detail page's author count are 1. |
| FeedProperties.PaginatorFeeds | yatube/posts/tests/test_views.py:189-242 | With every post by one author in one group and `size < n < 2*size`: page 1 of the index, group and profile feeds has `size` items, and page 2 has `n mod size`. |
| Follows.FollowingOfIsFollowing | yatube/posts/models.py:90-100 | An author is in a user's following set if and only if a follow row links them. |
| Follows.DoFollow | yatube/posts/tests/test_views.py:260-275 | Following is refused exactly for a viewer who is not logged in. It fails with not-found exactly for a non-user author. On success the edge exists, and nothing but the follow table and its key counter may change. |
| Follows.DoUnfollow | yatube/posts/tests/test_views.py:277-292 | Unfollowing has the same error cases. On success the edge is absent, every other edge is kept, and nothing but the follow table changes. |
| Follows.FollowPreservesValid | yatube/posts/models.py:102-107 | Following keeps follow pairs unique, along with the rest of the invariant. |
| Follows.FollowAddsOneEdge | yatube/posts/tests/test_views.py:260-275 | Following an author not yet followed adds exactly one edge, makes that edge present, keeps every earlier edge and keeps the invariant. |
| Follows.FollowNewEdge | yatube/posts/tests/test_views.py:260-275 | In a store whose keys lie below the counters, following an author not yet followed adds exactly one edge, makes it present and keeps every earlier edge. |
| Follows.FollowTwiceNoSecondEdge | yatube/posts/models.py:102-107 | Following an already-followed author leaves the store unchanged, so no second row appears. |
| Follows.UnfollowPreservesValid | yatube/posts/models.py:90-107 | Unfollowing keeps the invariant. |
| Follows.UnfollowRemovesOneEdge | yatube/posts/tests/test_views.py:277-292 | Unfollowing a followed author removes exactly one edge, and that edge is then absent. |
| Follows.FollowThenUnfollowRestores | yatube/posts/tests/test_views.py:260-292 | Unfollowing right after following a new author restores the follow table. Only the follow counter has advanced. |
| Referential.DeletePosts | yatube/posts/models.py:58-65 | Deleting a set of posts removes exactly those posts and exactly the comments attached to them. Everything else is kept unchanged. |
| Referential.DeletePost | yatube/posts/models.py:58-65 | Deleting a post removes it and every comment on it. Other posts and the comments on them are untouched. |
| Referential.DeleteAllPosts | yatube/posts/tests/test_views.py:179 | Deleting all posts empties the post table and removes every comment attached to a post. Users, groups and follows are untouched. |
| Referential.DeleteUser | yatube/posts/models.py:17-22 | Deleting a user removes them from the users and only ever removes posts, comments and follow rows. Groups are untouched. |
| Referential.DeleteUserRemovesPosts | yatube/posts/models.py:17-22 | After deleting a user, none of their posts remain. Every post by someone else is kept unchanged. |
| Referential.DeleteUserRemovesComments | yatube/posts/models.py:66-73 | After deleting a user, none of their comments remain, and none of the comments on their posts. Every other comment is kept unchanged. |
| Referential.DeleteUserRemovesFollows | yatube/posts/models.py:90-100 | After deleting a user, no follow edge has them at either end. Every other edge is kept. |
| Referential.DeleteGroup | yatube/posts/models.py:23-31 | Deleting a group keeps every post. Its posts get group none with text, author, date and image unchanged. Other posts and tables are untouched. |
| Referential.DeletePostsPreservesValid | yatube/posts/models.py:58-65 | Deleting posts with their comments keeps the invariant, so no comment is left pointing at a deleted post. |
| Referential.DeleteUserPreservesValid | yatube/posts/models.py:17-22 | Deleting a user with its cascades keeps the invariant, so no dangling author, post or follow reference remains. |
| Referential.DeleteGroupPreservesValid | yatube/posts/models.py:23-31 | Deleting a group with the set-null action keeps the invariant. |
| Forms.CreatePost | yatube/posts/tests/test_forms.py:59-76 | Creating is refused exactly for a viewer who is not logged in. It is invalid exactly for empty text or a non-existent group. On success the new post carries the submitted text, group and image, is authored by the viewer, and no other table changes. |
| Forms.CreatePostPreservesValid | yatube/posts/models.py:13-22 | A created post, stamped with the current instant, keeps the invariant. |
| Forms.CreatePostAddsOne | yatube/posts/tests/test_forms.py:73-76 | Creating a post adds exactly one post. Its id is higher than every existing id, and every earlier post is unchanged. |
| Forms.CreatePostHeadsIndex | yatube/posts/models.py:38-39 | A newly created post is first in the index listing. |
| Forms.EditPost | yatube/posts/tests/test_forms.py:84-103 | Editing fails exactly for an anonymous viewer, a missing post, or invalid text or group. On success it replaces the text and group (and the image when one is uploaded) under the same id. Author, date, other posts and other tables are kept. |
| Forms.EditPostEffect | yatube/posts/tests/test_forms.py:84-103 | Editing leaves the post count unchanged and keeps the invariant. |
| Forms.AddComment | yatube/posts/tests/test_forms.py:127-142 | Commenting is refused exactly for a viewer who is not logged in. It fails with not-found for a missing post and is invalid for empty text. On success the new comment carries the text, the post and the viewer, and no other table changes. |
| Forms.AddCommentPreservesValid | yatube/posts/models.py:57-81 | Adding a comment keeps the invariant. |
| Forms.AddCommentCounts | yatube/posts/tests/test_forms.py:129-141 | Commenting raises that post's comment count by exactly one and leaves every other post's count unchanged. |
| Forms.AddCommentHeadsComments | yatube/posts/models.py:83-84 | The new comment is first in its post's newest-first comment list. |
| Forms.FirstCommentIsOnlyComment | yatube/posts/tests/test_forms.py:141-142 | On a post without comments, the list after commenting is just the new comment, which carries the submitted text. |
| IndexCache.Serve | yatube/posts/tests/test_views.py:175-186 | A request leaves the cache holding the page it served. A held page is served as is. An empty cache renders the current store. |
| IndexCache.Clear | yatube/posts/tests/test_views.py:183 | Clearing empties the cache. |
| IndexCache.HeldPageIgnoresStore | yatube/posts/tests/test_views.py:177-182 | Once a page is held, the next request gets that same page, whatever the store has become. |
| IndexCache.ClearServesLive | yatube/posts/tests/test_views.py:183-186 | After a clear, the next request renders the current store. |
| IndexCache.CacheScenario | yatube/posts/tests/test_views.py:175-186 | Render a non-empty index, delete all posts, and the next request returns the same page. After a clear, the next request returns a different page. |
| Reachability.StepPreservesValid | yatube/posts/models.py:8-107 | Every modelled operation, whether accepted or rejected, keeps the invariant. |
| Reachability.RunPreservesValid | yatube/posts/models.py:8-107 | Any sequence of operations keeps the invariant. |
| Reachability.ReachableStoresKeepConstraints | yatube/posts/models.py:102-107 | No store reachable from the empty one holds two follow rows with the same (user, author) pair, two groups with the same slug, or a slug over 50 characters. |

## Left out

- HTTP routing, status codes and login redirects (yatube/posts/tests/test_urls.py) are
  left out. An anonymous viewer is the `Unauthorized` error and a missing object is
  `NotFound`.
- Template names, context keys and form field classes are rendering and form-library
  concerns.
- Form cleaning (whitespace stripping, widget handling) is left out. Submitted text is
  taken as already cleaned, and "required" means non-empty.
- Images are an opaque optional handle. Upload, validation and file storage are left
  out. An edit without a new upload keeps the old image; clearing an image is not
  modelled.
- The cache TTL (wall-clock expiry) is left out. Only the empty/held states and an
  explicit clear are modelled.
- The cache holds only the index's first page. Other index pages are computed live.
- Author-only editing is not modelled: the check lives in the view module, which is not
  part of this model. Any logged-in viewer may edit.
- There is no self-follow guard, because the schema has none.
- Unfollowing an edge that does not exist leaves the follow table unchanged. This model
  states no property about that case.
- Ordering ties between equal `pub_date` values are not modelled. The creation counter
  never repeats a stamp, whereas real timestamps can coincide.
- Concurrent follow inserts are left out: uniqueness is a state invariant, not a race
  protocol.
- User accounts are opaque ids. Usernames, credentials and deleting a user through the
  identity provider beyond the cascade are external.
- Group titles and descriptions are stored but never edited.
- Django ORM internals are left out. Pagination is a pure sequence slice.
- Pagination.Page: the view module is not part of this model, so the resolution of page
  numbers the tests never request (below 1, past the last page, not an integer) is
  Django's `get_page` behaviour, not a fact read from the view. `page()` raising
  `EmptyPage` is not modelled. Orphans are not modelled.
- Pagination.OutOfRangeGetsLastPage states that `get_page` behaviour. It has no row in
  the table because no file of the repository exercises it.
- `posts/tests/test_forms.py:142` reads the new comment with `comments.last()`. Under
  the `-created` ordering that is the oldest comment, so it is the new one only when
  the post had no comments before. `Forms.FirstCommentIsOnlyComment` states exactly that
  case, and `Forms.AddCommentHeadsComments` states the general one: the new comment is
  first.
