/** Every store reachable from the empty store through the modelled operations
    satisfies the invariants, in particular the `unique_followers` constraint
    and slug uniqueness. A rejected request leaves the store unchanged. */
module Reachability {
  import opened Entities
  import Follows
  import Referential
  import Forms

  datatype Op =
    | Register(user: UserId)
    | CreateGroup(title: string, slug: string, description: string)
    | Publish(viewer: Option<UserId>, text: string, group: Option<GroupId>, image: Option<ImageRef>)
    | Edit(viewer: Option<UserId>, post: PostId, text: string, group: Option<GroupId>, image: Option<ImageRef>)
    | CommentOn(viewer: Option<UserId>, post: PostId, text: string)
    | FollowAuthor(viewer: Option<UserId>, author: UserId)
    | UnfollowAuthor(viewer: Option<UserId>, author: UserId)
    | RemoveUser(user: UserId)
    | RemoveGroup(removed: GroupId)
    | RemovePost(post: PostId)
    | RemoveAllPosts

  function Step(s: Store, op: Op): Store {
    match op
    case Register(u) =>
      var r := RegisterUser(s, u); if r.Ok? then r.value else s
    case CreateGroup(title, slug, description) =>
      var r := AddGroup(s, title, slug, description); if r.Ok? then r.value.0 else s
    case Publish(viewer, text, group, image) =>
      var r := Forms.CreatePost(s, viewer, text, group, image); if r.Ok? then r.value.0 else s
    case Edit(viewer, p, text, group, image) =>
      var r := Forms.EditPost(s, viewer, p, text, group, image); if r.Ok? then r.value else s
    case CommentOn(viewer, p, text) =>
      var r := Forms.AddComment(s, viewer, p, text); if r.Ok? then r.value.0 else s
    case FollowAuthor(viewer, author) =>
      var r := Follows.DoFollow(s, viewer, author); if r.Ok? then r.value else s
    case UnfollowAuthor(viewer, author) =>
      var r := Follows.DoUnfollow(s, viewer, author); if r.Ok? then r.value else s
    case RemoveUser(u) => Referential.DeleteUser(s, u)
    case RemoveGroup(g) => Referential.DeleteGroup(s, g)
    case RemovePost(p) => Referential.DeletePost(s, p)
    case RemoveAllPosts => Referential.DeleteAllPosts(s)
  }

  /** Apply `ops` in order. */
  function Run(s: Store, ops: seq<Op>): Store
    decreases |ops|
  {
    if |ops| == 0 then s else Run(Step(s, ops[0]), ops[1..])
  }

  lemma StepPreservesValid(s: Store, op: Op)
    requires Valid(s)
    ensures Valid(Step(s, op))
  {
    match op
    case Register(u) =>
      if RegisterUser(s, u).Ok? { RegisterUserPreservesValid(s, u); }
    case CreateGroup(title, slug, description) =>
      if AddGroup(s, title, slug, description).Ok? { AddGroupPreservesValid(s, title, slug, description); }
    case Publish(viewer, text, group, image) =>
      if Forms.CreatePost(s, viewer, text, group, image).Ok? {
        Forms.CreatePostPreservesValid(s, viewer, text, group, image);
      }
    case Edit(viewer, p, text, group, image) =>
      if Forms.EditPost(s, viewer, p, text, group, image).Ok? {
        Forms.EditPostEffect(s, viewer, p, text, group, image);
      }
    case CommentOn(viewer, p, text) =>
      if Forms.AddComment(s, viewer, p, text).Ok? { Forms.AddCommentPreservesValid(s, viewer, p, text); }
    case FollowAuthor(viewer, author) =>
      if Follows.DoFollow(s, viewer, author).Ok? { Follows.FollowPreservesValid(s, viewer, author); }
    case UnfollowAuthor(viewer, author) =>
      if Follows.DoUnfollow(s, viewer, author).Ok? { Follows.UnfollowPreservesValid(s, viewer, author); }
    case RemoveUser(u) => Referential.DeleteUserPreservesValid(s, u);
    case RemoveGroup(g) => Referential.DeleteGroupPreservesValid(s, g);
    case RemovePost(p) => Referential.DeletePostsPreservesValid(s, {p});
    case RemoveAllPosts => Referential.DeletePostsPreservesValid(s, s.posts.Keys);
  }

  lemma {:induction false} RunPreservesValid(s: Store, ops: seq<Op>)
    requires Valid(s)
    ensures Valid(Run(s, ops))
    decreases |ops|
  {
    if |ops| > 0 {
      StepPreservesValid(s, ops[0]);
      RunPreservesValid(Step(s, ops[0]), ops[1..]);
    }
  }

  /** No reachable store holds two follow rows for the same (user, author)
      pair or two groups with the same slug, and every slug fits in 50 characters. */
  lemma ReachableStoresKeepConstraints(ops: seq<Op>)
    ensures var s := Run(EmptyStore, ops);
      && (forall i, j :: i in s.follows && j in s.follows && s.follows[i] == s.follows[j] ==> i == j)
      && (forall g, h :: g in s.groups && h in s.groups && s.groups[g].slug == s.groups[h].slug ==> g == h)
      && (forall g :: g in s.groups ==> |s.groups[g].slug| <= SlugMaxLength)
  {
    EmptyStoreValid();
    RunPreservesValid(EmptyStore, ops);
  }
}
