/**
 * The read side shared by both PostsControllers: what
 * `Posts.Include(p => p.Author).Include(p => p.PostTags).ThenInclude(pt => pt.Tag)`
 * loads, and the "published only, newest first" listings built on it.
 *
 * Loading follows the query filters. The Author navigation is required, so
 * including it is an inner join against the filtered Authors table: a post
 * whose author is soft-deleted is not loaded at all. Likewise a link is loaded
 * only when neither it nor its tag is soft-deleted.
 */
module Queries {
  import opened Wrappers
  import opened Entities
  import opened Text
  import Data

  /** A post-tag link with its Tag navigation loaded. */
  datatype LoadedLink = LoadedLink(link: PostTag, tag: Tag)

  /** A post with its Author and PostTags (and each link's Tag) loaded. */
  datatype LoadedPost = LoadedPost(post: Post, author: Author, links: seq<LoadedLink>)

  // ---------------------------------------------------------------------------
  // Where
  // ---------------------------------------------------------------------------

  /** LINQ `Where`: the elements satisfying `p`, in their original order. */
  function Where<T>(s: seq<T>, p: T -> bool): (r: seq<T>)
    ensures |r| <= |s|
    ensures forall i :: 0 <= i < |r| ==> r[i] in s && p(r[i])
    ensures forall i :: 0 <= i < |s| && p(s[i]) ==> s[i] in r
  {
    if s == [] then [] else (if p(s[0]) then [s[0]] else []) + Where(s[1..], p)
  }

  lemma {:induction false} WhereAppend<T>(a: seq<T>, b: seq<T>, p: T -> bool)
    ensures Where(a + b, p) == Where(a, p) + Where(b, p)
  {
    if a == [] {
      assert a + b == b;
    } else {
      assert (a + b)[1..] == a[1..] + b;
      WhereAppend(a[1..], b, p);
    }
  }

  /** A filter every element passes leaves the sequence as it is. */
  lemma {:induction false} WhereAll<T>(s: seq<T>, p: T -> bool)
    requires forall i :: 0 <= i < |s| ==> p(s[i])
    ensures Where(s, p) == s
  {
    if s != [] {
      WhereAll(s[1..], p);
    }
  }

  /** `Where` keeps relative order: it distributes over concatenation and keeps a passing element. */
  lemma WhereKeepsOrder<T>(a: seq<T>, x: T, b: seq<T>, p: T -> bool)
    requires p(x)
    ensures Where(a + [x] + b, p) == Where(a, p) + [x] + Where(b, p)
  {
    WhereAppend(a + [x], b, p);
    WhereAppend(a, [x], p);
    assert Where([x], p) == [x] by {
      assert [x][1..] == [];
    }
  }

  // ---------------------------------------------------------------------------
  // Loading a post's graph
  // ---------------------------------------------------------------------------

  /**
   * The links `Include(p => p.PostTags).ThenInclude(pt => pt.Tag)` loads for the
   * post `postId`: its links that are not soft-deleted and whose tag is not
   * soft-deleted, in table order, each with its tag.
   */
  function LoadLinks(links: seq<PostTag>, tags: seq<Tag>, postId: int): (r: seq<LoadedLink>)
    ensures forall l :: l in r ==>
      (l.link in links && !l.link.isDeleted && l.link.postId == postId
       && l.tag in tags && !l.tag.isDeleted && l.tag.id == l.link.tagId)
    ensures forall i ::
      (0 <= i < |links| && !links[i].isDeleted && links[i].postId == postId
       && Data.VisibleTag(tags, links[i].tagId).Some?) ==>
      LoadedLink(links[i], tags[Data.VisibleTag(tags, links[i].tagId).value]) in r
  {
    if links == [] then []
    else
      var rest := LoadLinks(links[1..], tags, postId);
      assert forall i :: 1 <= i < |links| ==> links[i] == links[1..][i - 1];
      var l := links[0];
      if !l.isDeleted && l.postId == postId then
        match Data.VisibleTag(tags, l.tagId)
        case Some(k) => [LoadedLink(l, tags[k])] + rest
        case None => rest
      else rest
  }

  /** The author the inner join finds for `p`, or None when it is soft-deleted. */
  function LoadPost(authors: seq<Author>, tags: seq<Tag>, links: seq<PostTag>, p: Post): (r: Option<LoadedPost>)
    ensures r.Some? <==> Data.VisibleAuthor(authors, p.authorId).Some?
    ensures r.Some? ==>
      (r.value.post == p && r.value.author in authors
       && !r.value.author.isDeleted && r.value.author.id == p.authorId)
  {
    match Data.VisibleAuthor(authors, p.authorId)
    case None => None
    case Some(k) => Some(LoadedPost(p, authors[k], LoadLinks(links, tags, p.id)))
  }

  /** Every post the query loads: not soft-deleted and with a visible author, in table order. */
  function LoadAll(authors: seq<Author>, tags: seq<Tag>, links: seq<PostTag>, posts: seq<Post>): (r: seq<LoadedPost>)
    ensures forall lp :: lp in r ==>
      (lp.post in posts && !lp.post.isDeleted && LoadPost(authors, tags, links, lp.post) == Some(lp))
    ensures forall p :: p in posts && !p.isDeleted && LoadPost(authors, tags, links, p).Some? ==>
      LoadPost(authors, tags, links, p).value in r
  {
    if posts == [] then []
    else
      var rest := LoadAll(authors, tags, links, posts[1..]);
      var p := posts[0];
      if p.isDeleted then rest
      else match LoadPost(authors, tags, links, p)
        case None => rest
        case Some(lp) => [lp] + rest
  }

  // ---------------------------------------------------------------------------
  // OrderByDescending(p => p.PublishedAt)
  // ---------------------------------------------------------------------------

  /**
   * `a` sorts no later than `b` in a descending order of PublishedAt. SQL sorts
   * NULL as the lowest value, so a post without a date comes after every dated one.
   */
  predicate NotOlder(a: Option<Time>, b: Option<Time>) {
    b.None? || (a.Some? && a.value >= b.value)
  }

  predicate NewestFirst(s: seq<LoadedPost>) {
    forall i, j :: 0 <= i < j < |s| ==> NotOlder(s[i].post.publishedAt, s[j].post.publishedAt)
  }

  /** Places `x` before the first element it is not older than. */
  function Insert(x: LoadedPost, s: seq<LoadedPost>): (r: seq<LoadedPost>)
    ensures multiset(r) == multiset(s) + multiset{x}
  {
    if s == [] then [x]
    else if NotOlder(x.post.publishedAt, s[0].post.publishedAt) then [x] + s
    else
      assert s == [s[0]] + s[1..];
      [s[0]] + Insert(x, s[1..])
  }

  lemma NotOlderTransitive(a: Option<Time>, b: Option<Time>, c: Option<Time>)
    requires NotOlder(a, b) && NotOlder(b, c)
    ensures NotOlder(a, c)
  {
  }

  /** Prepending an element not older than the head keeps the order. */
  lemma ConsNewestFirst(x: LoadedPost, s: seq<LoadedPost>)
    requires NewestFirst(s)
    requires forall k :: 0 <= k < |s| ==> NotOlder(x.post.publishedAt, s[k].post.publishedAt)
    ensures NewestFirst([x] + s)
  {
    var r := [x] + s;
    forall i, j | 0 <= i < j < |r|
      ensures NotOlder(r[i].post.publishedAt, r[j].post.publishedAt)
    {
      assert r[j] == s[j - 1];
      if i > 0 {
        assert r[i] == s[i - 1];
      }
    }
  }

  lemma {:induction false} InsertNewestFirst(x: LoadedPost, s: seq<LoadedPost>)
    requires NewestFirst(s)
    ensures NewestFirst(Insert(x, s))
  {
    if s == [] {
    } else if NotOlder(x.post.publishedAt, s[0].post.publishedAt) {
      forall k | 0 <= k < |s| ensures NotOlder(x.post.publishedAt, s[k].post.publishedAt) {
        if k > 0 {
          NotOlderTransitive(x.post.publishedAt, s[0].post.publishedAt, s[k].post.publishedAt);
        }
      }
      ConsNewestFirst(x, s);
    } else {
      var rest := Insert(x, s[1..]);
      InsertNewestFirst(x, s[1..]);
      forall k | 0 <= k < |rest|
        ensures NotOlder(s[0].post.publishedAt, rest[k].post.publishedAt)
      {
        assert rest[k] in multiset(rest);
        if rest[k] != x {
          assert rest[k] in multiset(s[1..]);
          var m :| 0 <= m < |s[1..]| && s[1..][m] == rest[k];
          assert s[m + 1] == rest[k];
        }
      }
      ConsNewestFirst(s[0], rest);
    }
  }

  /**
   * A stable insertion sort by PublishedAt, newest first. The database leaves
   * the order of equal dates unspecified; this model keeps table order.
   */
  function SortNewestFirst(s: seq<LoadedPost>): (r: seq<LoadedPost>)
    ensures NewestFirst(r)
    ensures multiset(r) == multiset(s)
  {
    if s == [] then []
    else
      assert s == [s[0]] + s[1..];
      var rest := SortNewestFirst(s[1..]);
      InsertNewestFirst(s[0], rest);
      Insert(s[0], rest)
  }

  // ---------------------------------------------------------------------------
  // The listing endpoints
  // ---------------------------------------------------------------------------

  predicate IsListed(lp: LoadedPost, keep: LoadedPost -> bool) {
    lp.post.isPublished && keep(lp)
  }

  /** `.Where(p => p.IsPublished && keep(p)).OrderByDescending(p => p.PublishedAt)` over the loaded posts. */
  function Listing(s: Data.Store, keep: LoadedPost -> bool): seq<LoadedPost> {
    SortNewestFirst(Where(LoadAll(s.authors, s.tags, s.postTags, s.posts), (lp: LoadedPost) => IsListed(lp, keep)))
  }

  /**
   * What every listing returns: exactly the loaded posts that are published and
   * pass the endpoint's own filter, each once, newest first.
   */
  lemma ListingSpec(s: Data.Store, keep: LoadedPost -> bool)
    ensures var r := Listing(s, keep);
      var loaded := LoadAll(s.authors, s.tags, s.postTags, s.posts);
      && NewestFirst(r)
      && (forall lp :: lp in r <==> lp in loaded && lp.post.isPublished && keep(lp))
      && multiset(r) == multiset(Where(loaded, (lp: LoadedPost) => IsListed(lp, keep)))
  {
    var r := Listing(s, keep);
    var w := Where(LoadAll(s.authors, s.tags, s.postTags, s.posts), (lp: LoadedPost) => IsListed(lp, keep));
    forall lp ensures lp in r <==> lp in w {
      assert lp in r <==> lp in multiset(r);
      assert lp in w <==> lp in multiset(w);
    }
  }

  /** A listed post is a visible, published post of the table whose author is visible. */
  lemma ListedPostIsVisible(s: Data.Store, keep: LoadedPost -> bool, lp: LoadedPost)
    requires lp in Listing(s, keep)
    ensures lp.post in s.posts && !lp.post.isDeleted && lp.post.isPublished && keep(lp)
    ensures !lp.author.isDeleted && lp.author.id == lp.post.authorId
  {
    ListingSpec(s, keep);
  }

  /** GetPosts: every published post. */
  function PublishedPosts(s: Data.Store): seq<LoadedPost> {
    Listing(s, (lp: LoadedPost) => true)
  }

  /** GetPostsByAuthor: the published posts of one author. */
  function PostsByAuthor(s: Data.Store, authorId: int): seq<LoadedPost> {
    Listing(s, (lp: LoadedPost) => lp.post.authorId == authorId)
  }

  predicate HasTagSlug(lp: LoadedPost, tagSlug: string) {
    exists l :: l in lp.links && l.tag.slug == tagSlug
  }

  /** GetPostsByTag: the published posts with a loaded link to a tag of that slug. */
  function PostsByTag(s: Data.Store, tagSlug: string): seq<LoadedPost> {
    Listing(s, (lp: LoadedPost) => HasTagSlug(lp, tagSlug))
  }

  /** The search condition: the query occurs in Title, in Content, or in a non-null Summary. */
  predicate Matches(p: Post, query: string) {
    Contains(p.title, query) || Contains(p.content, query) || (p.summary.Some? && Contains(p.summary.value, query))
  }

  /** SearchPosts after the blank-query guard. */
  function SearchHits(s: Data.Store, query: string): seq<LoadedPost> {
    Listing(s, (lp: LoadedPost) => Matches(lp.post, query))
  }

  /** Every search hit is published and contains the query in one of the three fields, and vice versa. */
  lemma SearchHitsSpec(s: Data.Store, query: string)
    ensures forall lp :: lp in SearchHits(s, query) <==>
      lp in LoadAll(s.authors, s.tags, s.postTags, s.posts) && lp.post.isPublished
      && (Contains(lp.post.title, query) || Contains(lp.post.content, query)
          || (lp.post.summary.Some? && Contains(lp.post.summary.value, query)))
    ensures NewestFirst(SearchHits(s, query))
  {
    ListingSpec(s, (lp: LoadedPost) => Matches(lp.post, query));
  }

  // ---------------------------------------------------------------------------
  // Single-post lookups with the Author join (GetPost, GetPostBySlug)
  // ---------------------------------------------------------------------------

  predicate IsLoadableWith(authors: seq<Author>, p: Post, keep: Post -> bool) {
    !p.isDeleted && keep(p) && Data.VisibleAuthor(authors, p.authorId).Some?
  }

  /** `FirstOrDefaultAsync(keep)` over the joined query: the first loadable post passing `keep`. */
  function FindLoadable(authors: seq<Author>, posts: seq<Post>, keep: Post -> bool): (r: Option<nat>)
    ensures r.Some? ==> r.value < |posts| && IsLoadableWith(authors, posts[r.value], keep)
    ensures r.None? <==> forall i :: 0 <= i < |posts| ==> !IsLoadableWith(authors, posts[i], keep)
  {
    Data.FindFirst(posts, (p: Post) => IsLoadableWith(authors, p, keep))
  }

  /** GetPost's lookup: the post with that id. */
  function FindById(authors: seq<Author>, posts: seq<Post>, id: int): Option<nat> {
    FindLoadable(authors, posts, (p: Post) => p.id == id)
  }

  /** GetPostBySlug's lookup: the published post with that slug. */
  function FindPublishedBySlug(authors: seq<Author>, posts: seq<Post>, slug: string): Option<nat> {
    FindLoadable(authors, posts, (p: Post) => p.slug == slug && p.isPublished)
  }

  /** The slug lookup never finds an unpublished post, and finds every visible published one. */
  lemma SlugLookupOnlyPublished(authors: seq<Author>, posts: seq<Post>, slug: string)
    ensures var r := FindPublishedBySlug(authors, posts, slug);
      && (r.Some? ==> posts[r.value].isPublished && posts[r.value].slug == slug && !posts[r.value].isDeleted)
      && (r.None? <==> forall i :: 0 <= i < |posts| ==>
            posts[i].isDeleted || !posts[i].isPublished || posts[i].slug != slug
            || Data.VisibleAuthor(authors, posts[i].authorId).None?)
  {
  }
}
