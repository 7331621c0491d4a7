/** The blog's entity store: users, groups, posts, comments and follow edges,
    the referential invariants every reachable store keeps, and the two
    administrative operations (registering a user, creating a group) that the
    rest of the model takes as given. */
module Entities {

  datatype Option<+T> = None | Some(value: T)

  type UserId = nat
  type GroupId = nat
  type PostId = nat
  type CommentId = nat
  type FollowId = nat

  /** Opaque handle of an uploaded image; the file itself lives in external storage. */
  type ImageRef = string

  /** `Group.slug` is a slug field of at most 50 characters. */
  const SlugMaxLength: nat := 50
  /** `Group.title` is a character field of at most 200 characters. */
  const TitleMaxLength: nat := 200

  datatype Group = Group(title: string, slug: string, description: string)

  /** `pubDate` is the value of the store's creation counter when the post was made. */
  datatype Post = Post(text: string, pubDate: nat, author: UserId, group: Option<GroupId>, image: Option<ImageRef>)

  /** Both references of a comment are nullable in the schema. */
  datatype Comment = Comment(post: Option<PostId>, author: Option<UserId>, text: string, created: nat)

  /** A directed edge: `user` follows `author`. */
  datatype Follow = Follow(user: UserId, author: UserId)

  /** Every table is a map from primary key to row; `next*` are the tables'
      auto-increment counters and `clock` stands for the creation instant
      that `auto_now_add` stamps onto posts and comments. */
  datatype Store = Store(
    users: set<UserId>,
    groups: map<GroupId, Group>,
    posts: map<PostId, Post>,
    comments: map<CommentId, Comment>,
    follows: map<FollowId, Follow>,
    nextGroup: nat,
    nextPost: nat,
    nextComment: nat,
    nextFollow: nat,
    clock: nat)

  datatype Error = NotFound | Unauthorized | ValidationFailure

  datatype Result<+T> = Ok(value: T) | Err(error: Error)

  const EmptyStore: Store := Store({}, map[], map[], map[], map[], 0, 0, 0, 0, 0)

  // ---------------------------------------------------------------------------
  // Invariants

  /** Every foreign key points at an existing row (the nullable ones may be absent). */
  ghost predicate ReferencesIntact(s: Store) {
    && (forall p :: p in s.posts ==> s.posts[p].author in s.users)
    && (forall p :: p in s.posts && s.posts[p].group.Some? ==> s.posts[p].group.value in s.groups)
    && (forall c :: c in s.comments && s.comments[c].post.Some? ==> s.comments[c].post.value in s.posts)
    && (forall c :: c in s.comments && s.comments[c].author.Some? ==> s.comments[c].author.value in s.users)
    && (forall f :: f in s.follows ==> s.follows[f].user in s.users && s.follows[f].author in s.users)
  }

  /** The `unique_followers` constraint: no two rows carry the same (user, author) pair. */
  ghost predicate UniqueFollows(follows: map<FollowId, Follow>) {
    forall i, j :: i in follows && j in follows && follows[i] == follows[j] ==> i == j
  }

  predicate IsSlugChar(c: char) {
    ('a' <= c <= 'z') || ('A' <= c <= 'Z') || ('0' <= c <= '9') || c == '-' || c == '_'
  }

  /** A non-empty string of ASCII letters, digits, hyphens and underscores. */
  predicate IsSlug(slug: string) {
    |slug| > 0 && forall i :: 0 <= i < |slug| ==> IsSlugChar(slug[i])
  }

  /** Slugs are unique and at most `SlugMaxLength` long. */
  ghost predicate GroupsWellFormed(groups: map<GroupId, Group>) {
    && (forall g :: g in groups ==> IsSlug(groups[g].slug) && |groups[g].slug| <= SlugMaxLength)
    && (forall g :: g in groups ==> |groups[g].title| <= TitleMaxLength)
    && (forall g, h :: g in groups && h in groups && groups[g].slug == groups[h].slug ==> g == h)
  }

  /** Primary keys were handed out by the counters. */
  ghost predicate KeysBelowCounters(s: Store) {
    && (forall g :: g in s.groups ==> g < s.nextGroup)
    && (forall p :: p in s.posts ==> p < s.nextPost)
    && (forall c :: c in s.comments ==> c < s.nextComment)
    && (forall f :: f in s.follows ==> f < s.nextFollow)
  }

  /** Creation stamps lie in the past and grow with the primary key. */
  ghost predicate StampsMonotone(s: Store) {
    && (forall p :: p in s.posts ==> s.posts[p].pubDate < s.clock)
    && (forall c :: c in s.comments ==> s.comments[c].created < s.clock)
    && (forall p, q :: p in s.posts && q in s.posts && p < q ==> s.posts[p].pubDate < s.posts[q].pubDate)
    && (forall c, d :: c in s.comments && d in s.comments && c < d ==> s.comments[c].created < s.comments[d].created)
  }

  ghost predicate Valid(s: Store) {
    && ReferencesIntact(s)
    && UniqueFollows(s.follows)
    && GroupsWellFormed(s.groups)
    && KeysBelowCounters(s)
    && StampsMonotone(s)
  }

  lemma EmptyStoreValid()
    ensures Valid(EmptyStore)
  {
  }

  /** A request is authenticated when it carries the id of an existing user. */
  predicate Authenticated(s: Store, viewer: Option<UserId>) {
    viewer.Some? && viewer.value in s.users
  }

  // ---------------------------------------------------------------------------
  // Administrative operations

  /** The identity provider creates a user under an id no current user has. */
  function RegisterUser(s: Store, u: UserId): (r: Result<Store>)
    ensures r.Err? <==> u in s.users
    ensures r.Ok? ==> r.value.users == s.users + {u} && r.value == s.(users := r.value.users)
  {
    if u in s.users then Err(ValidationFailure) else Ok(s.(users := s.users + {u}))
  }

  /** Some group already uses `slug`. */
  predicate SlugTaken(groups: map<GroupId, Group>, slug: string) {
    exists g :: g in groups && groups[g].slug == slug
  }

  /** An administrator creates a group; the slug must be a well-formed, unused
      slug of at most 50 characters, the title at most 200 characters. */
  function AddGroup(s: Store, title: string, slug: string, description: string): (r: Result<(Store, GroupId)>)
    ensures r.Ok? <==> IsSlug(slug) && |slug| <= SlugMaxLength && !SlugTaken(s.groups, slug)
                       && 0 < |title| <= TitleMaxLength && |description| > 0
  {
    if !IsSlug(slug) || |slug| > SlugMaxLength || SlugTaken(s.groups, slug)
       || |title| == 0 || |title| > TitleMaxLength || |description| == 0
    then Err(ValidationFailure)
    else
      var g := s.nextGroup;
      Ok((s.(groups := s.groups[g := Group(title, slug, description)], nextGroup := g + 1), g))
  }

  /** A created group is a new row carrying the submitted fields, slug
      uniqueness survives, and no other table changes. */
  lemma AddGroupPreservesValid(s: Store, title: string, slug: string, description: string)
    requires Valid(s)
    requires AddGroup(s, title, slug, description).Ok?
    ensures var (s', g) := AddGroup(s, title, slug, description).value;
      && Valid(s')
      && g !in s.groups
      && s'.groups == s.groups[g := Group(title, slug, description)]
      && |s'.groups| == |s.groups| + 1
      && s'.users == s.users && s'.posts == s.posts && s'.comments == s.comments && s'.follows == s.follows
  {
    var (s', g) := AddGroup(s, title, slug, description).value;
    assert g !in s.groups;
    assert GroupsWellFormed(s'.groups) by {
      forall h, k | h in s'.groups && k in s'.groups && s'.groups[h].slug == s'.groups[k].slug
        ensures h == k
      {
        if h != g && k != g {
          assert s.groups[h].slug == s.groups[k].slug;
        }
      }
    }
  }

  lemma RegisterUserPreservesValid(s: Store, u: UserId)
    requires Valid(s)
    requires RegisterUser(s, u).Ok?
    ensures Valid(RegisterUser(s, u).value)
  {
  }
}
