/** The write-side forms: creating a post, editing a post and commenting on a
    post, each a transition of the store on behalf of the logged-in viewer.
    Text arrives as the form library has cleaned it; required text is non-empty. */
module Forms {
  import opened Entities
  import Feeds
  import Listing

  /** A submitted group must be one of the existing groups, or none. */
  predicate ValidGroupChoice(s: Store, group: Option<GroupId>) {
    group.None? || group.value in s.groups
  }

  /** Create a post authored by the viewer, stamped with the current instant. */
  function CreatePost(s: Store, viewer: Option<UserId>, text: string, group: Option<GroupId>, image: Option<ImageRef>)
    : (r: Result<(Store, PostId)>)
    ensures r == Err(Unauthorized) <==> !Authenticated(s, viewer)
    ensures r == Err(ValidationFailure) <==> Authenticated(s, viewer) && (|text| == 0 || !ValidGroupChoice(s, group))
    ensures r.Ok? ==> var (s', p) := r.value;
      && p in s'.posts
      && s'.posts[p].text == text && s'.posts[p].group == group && s'.posts[p].image == image
      && s'.posts[p].author == viewer.value
      && s'.users == s.users && s'.groups == s.groups && s'.comments == s.comments && s'.follows == s.follows
  {
    if !Authenticated(s, viewer) then Err(Unauthorized)
    else if |text| == 0 || !ValidGroupChoice(s, group) then Err(ValidationFailure)
    else
      var p := s.nextPost;
      var post := Post(text, s.clock, viewer.value, group, image);
      Ok((s.(posts := s.posts[p := post], nextPost := p + 1, clock := s.clock + 1), p))
  }

  /** Appending a post stamped with the current instant under the next key keeps the store valid. */
  lemma InsertPostPreservesValid(s: Store, post: Post)
    requires Valid(s)
    requires post.author in s.users && ValidGroupChoice(s, post.group) && post.pubDate == s.clock
    ensures Valid(s.(posts := s.posts[s.nextPost := post], nextPost := s.nextPost + 1, clock := s.clock + 1))
  {
    var s' := s.(posts := s.posts[s.nextPost := post], nextPost := s.nextPost + 1, clock := s.clock + 1);
    assert s.nextPost !in s.posts;
    assert ReferencesIntact(s') by {
      assert forall c :: c in s'.comments && s'.comments[c].post.Some? ==> s'.comments[c].post.value in s.posts;
    }
    assert StampsMonotone(s') by {
      forall p, q | p in s'.posts && q in s'.posts && p < q
        ensures s'.posts[p].pubDate < s'.posts[q].pubDate
      {
        if q == s.nextPost {
          assert p in s.posts;
        }
      }
    }
  }

  /** Creating a post keeps the store valid. */
  lemma CreatePostPreservesValid(s: Store, viewer: Option<UserId>, text: string, group: Option<GroupId>, image: Option<ImageRef>)
    requires Valid(s)
    requires CreatePost(s, viewer, text, group, image).Ok?
    ensures Valid(CreatePost(s, viewer, text, group, image).value.0)
  {
    var p := s.nextPost;
    var post := Post(text, s.clock, viewer.value, group, image);
    var s' := s.(posts := s.posts[p := post], nextPost := p + 1, clock := s.clock + 1);
    assert CreatePost(s, viewer, text, group, image).value == (s', p);
    InsertPostPreservesValid(s, post);
  }

  /** A created post is one new row with the highest id, and every earlier
      post is kept as it was. */
  lemma CreatePostAddsOne(s: Store, viewer: Option<UserId>, text: string, group: Option<GroupId>, image: Option<ImageRef>)
    requires KeysBelowCounters(s)
    requires CreatePost(s, viewer, text, group, image).Ok?
    ensures var (s', p) := CreatePost(s, viewer, text, group, image).value;
      && p !in s.posts
      && |s'.posts| == |s.posts| + 1
      && (forall q :: q in s.posts ==> q < p && q in s'.posts && s'.posts[q] == s.posts[q])
  {
    var p := s.nextPost;
    var post := Post(text, s.clock, viewer.value, group, image);
    var s' := s.(posts := s.posts[p := post], nextPost := p + 1, clock := s.clock + 1);
    assert CreatePost(s, viewer, text, group, image).value == (s', p);
    assert p !in s.posts;
    assert s'.posts.Keys == s.posts.Keys + {p};
  }

  /** A created post is the newest one: it heads the index listing. */
  lemma CreatePostHeadsIndex(s: Store, viewer: Option<UserId>, text: string, group: Option<GroupId>, image: Option<ImageRef>)
    requires Valid(s)
    requires CreatePost(s, viewer, text, group, image).Ok?
    ensures var (s', p) := CreatePost(s, viewer, text, group, image).value;
      |Feeds.Posts(s', Feeds.Everything)| > 0 && Feeds.Posts(s', Feeds.Everything)[0] == p
  {
    var p := s.nextPost;
    var post := Post(text, s.clock, viewer.value, group, image);
    var s' := s.(posts := s.posts[p := post], nextPost := p + 1, clock := s.clock + 1);
    assert CreatePost(s, viewer, text, group, image).value == (s', p);
    Listing.NewestFirstHead(s'.posts, Feeds.ScopeFilter(Feeds.Everything), s'.nextPost);
  }

  /** Edit a post: the text and group are replaced, the image only when a new
      one is uploaded; id, author and publication date stay. */
  function EditPost(s: Store, viewer: Option<UserId>, p: PostId, text: string, group: Option<GroupId>, image: Option<ImageRef>)
    : (r: Result<Store>)
    ensures r == Err(Unauthorized) <==> !Authenticated(s, viewer)
    ensures r == Err(NotFound) <==> Authenticated(s, viewer) && p !in s.posts
    ensures r == Err(ValidationFailure) <==> Authenticated(s, viewer) && p in s.posts && (|text| == 0 || !ValidGroupChoice(s, group))
    ensures r.Ok? ==> var s' := r.value;
      && s'.posts.Keys == s.posts.Keys
      && s'.posts[p].text == text && s'.posts[p].group == group
      && s'.posts[p].author == s.posts[p].author && s'.posts[p].pubDate == s.posts[p].pubDate
      && (image.Some? ==> s'.posts[p].image == image)
      && (image.None? ==> s'.posts[p].image == s.posts[p].image)
      && (forall q :: q in s.posts && q != p ==> s'.posts[q] == s.posts[q])
      && s'.users == s.users && s'.groups == s.groups && s'.comments == s.comments && s'.follows == s.follows
  {
    if !Authenticated(s, viewer) then Err(Unauthorized)
    else if p !in s.posts then Err(NotFound)
    else if |text| == 0 || !ValidGroupChoice(s, group) then Err(ValidationFailure)
    else
      var before := s.posts[p];
      var edited := before.(text := text, group := group, image := if image.Some? then image else before.image);
      Ok(s.(posts := s.posts[p := edited]))
  }

  /** Editing keeps the number of posts and the store's validity. */
  lemma EditPostEffect(s: Store, viewer: Option<UserId>, p: PostId, text: string, group: Option<GroupId>, image: Option<ImageRef>)
    requires Valid(s)
    requires EditPost(s, viewer, p, text, group, image).Ok?
    ensures var s' := EditPost(s, viewer, p, text, group, image).value;
      |s'.posts| == |s.posts| && Valid(s')
  {
    var s' := EditPost(s, viewer, p, text, group, image).value;
    assert s'.posts.Keys == s.posts.Keys;
    assert forall q :: q in s'.posts ==> s'.posts[q].pubDate == s.posts[q].pubDate && s'.posts[q].author == s.posts[q].author;
    assert ReferencesIntact(s') by {
      assert forall q :: q in s'.posts && s'.posts[q].group.Some? ==> s'.posts[q].group.value in s.groups;
    }
    assert StampsMonotone(s');
  }

  /** Comment on post `p` as the viewer, stamped with the current instant. */
  function AddComment(s: Store, viewer: Option<UserId>, p: PostId, text: string): (r: Result<(Store, CommentId)>)
    ensures r == Err(Unauthorized) <==> !Authenticated(s, viewer)
    ensures r == Err(NotFound) <==> Authenticated(s, viewer) && p !in s.posts
    ensures r == Err(ValidationFailure) <==> Authenticated(s, viewer) && p in s.posts && |text| == 0
    ensures r.Ok? ==> var (s', c) := r.value;
      && c in s'.comments
      && s'.comments[c].text == text && s'.comments[c].post == Some(p) && s'.comments[c].author == viewer
      && s'.users == s.users && s'.groups == s.groups && s'.posts == s.posts && s'.follows == s.follows
  {
    if !Authenticated(s, viewer) then Err(Unauthorized)
    else if p !in s.posts then Err(NotFound)
    else if |text| == 0 then Err(ValidationFailure)
    else
      var c := s.nextComment;
      Ok((s.(comments := s.comments[c := Comment(Some(p), viewer, text, s.clock)], nextComment := c + 1, clock := s.clock + 1), c))
  }

  /** Appending a comment stamped with the current instant under the next key keeps the store valid. */
  lemma InsertCommentPreservesValid(s: Store, comment: Comment)
    requires Valid(s)
    requires comment.post.Some? && comment.post.value in s.posts
    requires comment.author.Some? && comment.author.value in s.users
    requires comment.created == s.clock
    ensures Valid(s.(comments := s.comments[s.nextComment := comment], nextComment := s.nextComment + 1, clock := s.clock + 1))
  {
    var s' := s.(comments := s.comments[s.nextComment := comment], nextComment := s.nextComment + 1, clock := s.clock + 1);
    assert s.nextComment !in s.comments;
    assert StampsMonotone(s') by {
      forall c, d | c in s'.comments && d in s'.comments && c < d
        ensures s'.comments[c].created < s'.comments[d].created
      {
        if d == s.nextComment {
          assert c in s.comments;
        }
      }
    }
  }

  /** Commenting keeps the store valid. */
  lemma AddCommentPreservesValid(s: Store, viewer: Option<UserId>, p: PostId, text: string)
    requires Valid(s)
    requires AddComment(s, viewer, p, text).Ok?
    ensures Valid(AddComment(s, viewer, p, text).value.0)
  {
    var c := s.nextComment;
    var comment := Comment(Some(p), viewer, text, s.clock);
    var s' := s.(comments := s.comments[c := comment], nextComment := c + 1, clock := s.clock + 1);
    assert AddComment(s, viewer, p, text).value == (s', c);
    InsertCommentPreservesValid(s, comment);
  }

  /** A comment raises its post's comment count by exactly one and leaves
      every other post's count alone. */
  lemma AddCommentCounts(s: Store, viewer: Option<UserId>, p: PostId, text: string)
    requires KeysBelowCounters(s)
    requires AddComment(s, viewer, p, text).Ok?
    ensures var s' := AddComment(s, viewer, p, text).value.0;
      && Feeds.CommentCount(s', p) == Feeds.CommentCount(s, p) + 1
      && forall other :: other != p ==> Feeds.CommentCount(s', other) == Feeds.CommentCount(s, other)
  {
    var c := s.nextComment;
    var comment := Comment(Some(p), viewer, text, s.clock);
    var s' := s.(comments := s.comments[c := comment], nextComment := c + 1, clock := s.clock + 1);
    assert AddComment(s, viewer, p, text).value == (s', c);
    assert c !in s.comments;
    assert c !in Feeds.CommentSet(s, p);
    assert Feeds.CommentSet(s', p) == Feeds.CommentSet(s, p) + {c};
    forall other | other != p
      ensures Feeds.CommentCount(s', other) == Feeds.CommentCount(s, other)
    {
      assert Feeds.CommentSet(s', other) == Feeds.CommentSet(s, other);
    }
  }

  /** The new comment is the newest of its post's comments: it heads the list. */
  lemma AddCommentHeadsComments(s: Store, viewer: Option<UserId>, p: PostId, text: string)
    requires Valid(s)
    requires AddComment(s, viewer, p, text).Ok?
    ensures var (s', c) := AddComment(s, viewer, p, text).value;
      |Feeds.Comments(s', p)| > 0 && Feeds.Comments(s', p)[0] == c
  {
    var c := s.nextComment;
    var comment := Comment(Some(p), viewer, text, s.clock);
    var s' := s.(comments := s.comments[c := comment], nextComment := c + 1, clock := s.clock + 1);
    assert AddComment(s, viewer, p, text).value == (s', c);
    Listing.NewestFirstHead(s'.comments, Feeds.CommentFilter(p), s'.nextComment);
  }

  /** On a post without comments, the new comment is both the first and the
      last entry of the post's comment list. */
  lemma FirstCommentIsOnlyComment(s: Store, viewer: Option<UserId>, p: PostId, text: string)
    requires Valid(s)
    requires AddComment(s, viewer, p, text).Ok?
    requires Feeds.CommentCount(s, p) == 0
    ensures var (s', c) := AddComment(s, viewer, p, text).value;
      Feeds.Comments(s', p) == [c] && s'.comments[c].text == text
  {
    var (s', c) := AddComment(s, viewer, p, text).value;
    AddCommentPreservesValid(s, viewer, p, text);
    AddCommentCounts(s, viewer, p, text);
    AddCommentHeadsComments(s, viewer, p, text);
    Feeds.CommentsLength(s', p);
  }
}
