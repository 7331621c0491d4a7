/** The home-page cache: either empty or holding one rendered first page of
    the index. A held page is served whatever happens to the store until the
    cache is cleared. */
module IndexCache {
  import opened Entities
  import Feeds
  import Referential
  import Listing

  /** A rendered index page: the posts it shows, frozen as they were when rendered. */
  type Rendering = seq<Post>

  datatype Cache = Empty | Cached(page: Rendering)

  /** Render the first index page of the current store. */
  function Render(s: Store, size: nat): (r: Rendering)
    requires size > 0
    ensures |r| == |Feeds.IndexPage(s, None, size)|
    ensures forall i :: 0 <= i < |r| ==>
      Feeds.IndexPage(s, None, size)[i] in s.posts && r[i] == s.posts[Feeds.IndexPage(s, None, size)[i]]
  {
    var ids := Feeds.IndexPage(s, None, size);
    assert forall i :: 0 <= i < |ids| ==> ids[i] in s.posts;
    seq(|ids|, i requires 0 <= i < |ids| => s.posts[ids[i]])
  }

  /** Serve the home page: a held page is returned as is, otherwise the page is
      rendered from the store and kept. */
  function Serve(c: Cache, s: Store, size: nat): (r: (Rendering, Cache))
    requires size > 0
    ensures r.1 == Cached(r.0)
    ensures c.Cached? ==> r.0 == c.page
    ensures c.Empty? ==> r.0 == Render(s, size)
  {
    match c
    case Cached(page) => (page, c)
    case Empty =>
      var page := Render(s, size);
      (page, Cached(page))
  }

  /** Explicit invalidation: the held page, if any, is dropped. */
  function Clear(c: Cache): (r: Cache)
    ensures r.Empty?
  {
    Empty
  }

  /** Once a page is held, every later request gets that same page, whatever
      the store has become in between. */
  lemma HeldPageIgnoresStore(c: Cache, s1: Store, s2: Store, size: nat)
    requires size > 0
    ensures var (first, c1) := Serve(c, s1, size);
      Serve(c1, s2, size) == (first, c1)
  {
  }

  /** After a clear, the next request renders the current store. */
  lemma ClearServesLive(c: Cache, s: Store, size: nat)
    requires size > 0
    ensures Serve(Clear(c), s, size).0 == Render(s, size)
  {
  }

  /** A store with posts renders a non-empty index page. */
  lemma RenderNonEmpty(s: Store, size: nat)
    requires KeysBelowCounters(s) && size > 0
    requires |s.posts| > 0
    ensures |Render(s, size)| > 0
  {
    var p :| p in s.posts;
    assert p in Feeds.Posts(s, Feeds.Everything);
  }

  /** A store without posts renders an empty index page. */
  lemma RenderEmpty(s: Store, size: nat)
    requires size > 0
    requires s.posts == map[]
    ensures Render(s, size) == []
  {
    Listing.NewestFirstOfEmpty(s.posts, Feeds.ScopeFilter(Feeds.Everything), s.nextPost);
  }

  /** The cache test: render a non-empty index, delete every post, request
      again and get the same page; clear, request again and get a different one. */
  lemma CacheScenario(s: Store, size: nat)
    requires Valid(s) && size > 0
    requires |s.posts| > 0
    ensures var (first, c1) := Serve(Empty, s, size);
      var s2 := Referential.DeleteAllPosts(s);
      var (second, c2) := Serve(c1, s2, size);
      var (third, _) := Serve(Clear(c2), s2, size);
      second == first && third != first
  {
    RenderNonEmpty(s, size);
    RenderEmpty(Referential.DeleteAllPosts(s), size);
  }
}
