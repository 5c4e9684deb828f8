/**
 * PostsController of the Angular back end: the same store rules as the entity
 * version, but requests arrive as CreatePostDto/UpdatePostDto, responses leave
 * as PostListDto/PostDetailDto, and a post's tag links are written from TagIds.
 */
module DtoPosts {
  import opened Wrappers
  import opened Entities
  import opened Text
  import opened Data
  import opened Actions
  import opened Queries
  import opened Mapping
  import opened PostRules
  import Slug

  // ---------------------------------------------------------------------------
  // Listings: the entity listings, each post mapped to PostListDto
  // ---------------------------------------------------------------------------

  function ListViews(posts: seq<LoadedPost>): (r: seq<PostListView>)
    ensures |r| == |posts|
    ensures forall i :: 0 <= i < |posts| ==> r[i] == ToPostListView(posts[i])
  {
    Select(posts, ToPostListView)
  }

  /** GET api/posts: one list view per published post, in the newest-first order of the listing. */
  function GetPosts(s: Store): (r: Response<seq<PostListView>>)
    ensures r.Ok? && |r.body| == |PublishedPosts(s)|
    ensures forall i :: 0 <= i < |r.body| ==>
      r.body[i].id == PublishedPosts(s)[i].post.id && PublishedPosts(s)[i].post.isPublished
  {
    ListingSpec(s, (lp: LoadedPost) => true);
    Ok(ListViews(PublishedPosts(s)))
  }

  /** GET api/posts/author/{authorId}: list views of that author's published posts, newest first. */
  function GetPostsByAuthor(s: Store, authorId: int): (r: Response<seq<PostListView>>)
    ensures r.Ok? && |r.body| == |PostsByAuthor(s, authorId)|
    ensures forall i :: 0 <= i < |r.body| ==>
      r.body[i].id == PostsByAuthor(s, authorId)[i].post.id && r.body[i].author.id == authorId
  {
    var posts := PostsByAuthor(s, authorId);
    forall i | 0 <= i < |posts| ensures posts[i].author.id == authorId {
      ListedPostIsVisible(s, (lp: LoadedPost) => lp.post.authorId == authorId, posts[i]);
    }
    Ok(ListViews(posts))
  }

  /**
   * GET api/posts/tag/{tagSlug}: list views of the published posts carrying a
   * tag of that slug, in the newest-first order of the listing.
   */
  function GetPostsByTag(s: Store, tagSlug: string): (r: Response<seq<PostListView>>)
    ensures r.Ok? && |r.body| == |PostsByTag(s, tagSlug)|
    ensures forall i :: 0 <= i < |r.body| ==>
      && r.body[i].id == PostsByTag(s, tagSlug)[i].post.id
      && exists t :: t in r.body[i].tags && t.slug == tagSlug
  {
    var posts := PostsByTag(s, tagSlug);
    forall i | 0 <= i < |posts| ensures exists t :: t in ToPostListView(posts[i]).tags && t.slug == tagSlug {
      ListedPostIsVisible(s, (lp: LoadedPost) => HasTagSlug(lp, tagSlug), posts[i]);
      ViewShowsTag(posts[i], tagSlug);
    }
    Ok(ListViews(posts))
  }

  /** A post loaded with a link to a tag of that slug shows that tag in its list view. */
  lemma ViewShowsTag(lp: LoadedPost, tagSlug: string)
    requires HasTagSlug(lp, tagSlug)
    ensures exists t :: t in ToPostListView(lp).tags && t.slug == tagSlug
  {
    var l :| l in lp.links && l.tag.slug == tagSlug;
    var k :| 0 <= k < |lp.links| && lp.links[k] == l;
    assert ToPostListView(lp).tags[k] == ToTagView(l.tag);
  }

  /** GET api/posts/search?query=...: a blank query is refused; otherwise list views of the search hits. */
  function SearchPosts(s: Store, query: Option<string>): (r: Response<seq<PostListView>>)
    ensures IsNullOrWhiteSpace(query) ==> r == BadRequest("Search query cannot be empty")
    ensures !IsNullOrWhiteSpace(query) ==> r.Ok? && |r.body| == |SearchHits(s, query.value)|
    ensures !IsNullOrWhiteSpace(query) ==> forall i :: 0 <= i < |r.body| ==>
      r.body[i].id == SearchHits(s, query.value)[i].post.id && Matches(SearchHits(s, query.value)[i].post, query.value)
  {
    if IsNullOrWhiteSpace(query) then BadRequest("Search query cannot be empty")
    else
      var hits := SearchHits(s, query.value);
      ListingSpec(s, (lp: LoadedPost) => Matches(lp.post, query.value));
      assert forall i :: 0 <= i < |hits| ==> hits[i] in hits;
      Ok(ListViews(hits))
  }

  // ---------------------------------------------------------------------------
  // Single-post reads
  // ---------------------------------------------------------------------------

  /** GET api/posts/{id}: counts a view, then answers the detail view of the post after the increment. */
  method GetPost(db: ApplicationDb, id: int, now: Time) returns (r: Response<PostDetailView>)
    requires db.Valid()
    modifies db
    ensures db.Valid()
    ensures var s := old(db.Snapshot());
      match FindById(s.authors, s.posts, id)
      case None => r == NotFound(PostNotFound(id)) && db.Snapshot() == s
      case Some(i) =>
        var p := Viewed(s.posts[i], now);
        && db.Snapshot() == s.(posts := s.posts[i := p])
        && r.Ok? && r.body.id == id && r.body.viewCount == Increment(s.posts[i].viewCount)
        && r.body == ToPostDetailView(LoadPost(s.authors, s.tags, s.postTags, p).value)
  {
    var s := db.Snapshot();
    match FindById(s.authors, s.posts, id)
    case None =>
      r := NotFound(PostNotFound(id));
    case Some(i) =>
      var lp := RecordView(db, i, now);
      r := Ok(ToPostDetailView(lp));
  }

  /** GET api/posts/slug/{slug}: like GetPost, for the published post with that slug. */
  method GetPostBySlug(db: ApplicationDb, slug: string, now: Time) returns (r: Response<PostDetailView>)
    requires db.Valid()
    modifies db
    ensures db.Valid()
    ensures var s := old(db.Snapshot());
      match FindPublishedBySlug(s.authors, s.posts, slug)
      case None => r == NotFound("Post with slug '" + slug + "' not found") && db.Snapshot() == s
      case Some(i) =>
        var p := Viewed(s.posts[i], now);
        && db.Snapshot() == s.(posts := s.posts[i := p])
        && r.Ok? && r.body.slug == slug && r.body.viewCount == Increment(s.posts[i].viewCount)
        && r.body == ToPostDetailView(LoadPost(s.authors, s.tags, s.postTags, p).value)
  {
    var s := db.Snapshot();
    match FindPublishedBySlug(s.authors, s.posts, slug)
    case None =>
      r := NotFound("Post with slug '" + slug + "' not found");
    case Some(i) =>
      var lp := RecordView(db, i, now);
      r := Ok(ToPostDetailView(lp));
  }

  // ---------------------------------------------------------------------------
  // Tag links
  // ---------------------------------------------------------------------------

  /**
   * The join rows for `tagIds`, in order, as the database numbers them when it
   * inserts them after the key `firstId - 1`.
   */
  function LinkRows(postId: int, tagIds: seq<int>, firstId: int, now: Time): (r: seq<PostTag>)
    ensures |r| == |tagIds|
    ensures forall k :: 0 <= k < |r| ==>
      r[k].postId == postId && r[k].tagId == tagIds[k] && r[k].id == firstId + k && !r[k].isDeleted
  {
    seq(|tagIds|, k requires 0 <= k < |tagIds| => PostTag(firstId + k, postId, tagIds[k], now, None, false))
  }

  /** The `foreach (var tagId in TagIds) PostTags.Add(new PostTag { ... })` loop. */
  method NewLinks(postId: int, tagIds: seq<int>, firstId: int, now: Time) returns (links: seq<PostTag>)
    ensures links == LinkRows(postId, tagIds, firstId, now)
  {
    links := [];
    for k := 0 to |tagIds|
      invariant |links| == k
      invariant forall m :: 0 <= m < k ==> links[m] == PostTag(firstId + m, postId, tagIds[m], now, None, false)
    {
      links := links + [PostTag(firstId + k, postId, tagIds[k], now, None, false)];
    }
  }

  /** A live link of post `postId`: what `Include(p => p.PostTags)` loads for it. */
  predicate IsLinkOf(l: PostTag, postId: int) {
    !l.isDeleted && l.postId == postId
  }

  /** The join table after `PostTags.Clear()` on the loaded post: its live links are removed from the table. */
  function Unlinked(links: seq<PostTag>, postId: int): (r: seq<PostTag>)
    ensures forall i :: 0 <= i < |r| ==> !IsLinkOf(r[i], postId)
  {
    Where(links, (l: PostTag) => !IsLinkOf(l, postId))
  }

  /** After the replacement, the live links of the post are exactly the new rows, in TagIds order. */
  lemma LinksAfterReplace(links: seq<PostTag>, postId: int, tagIds: seq<int>, firstId: int, now: Time)
    ensures var rows := LinkRows(postId, tagIds, firstId, now);
      Where(Unlinked(links, postId) + rows, (l: PostTag) => IsLinkOf(l, postId)) == rows
  {
    var rows := LinkRows(postId, tagIds, firstId, now);
    var p := (l: PostTag) => IsLinkOf(l, postId);
    WhereAppend(Unlinked(links, postId), rows, p);
    NoneKept(Unlinked(links, postId), postId);
    AllKept(rows, postId);
  }

  lemma {:induction false} NoneKept(s: seq<PostTag>, postId: int)
    requires forall i :: 0 <= i < |s| ==> !IsLinkOf(s[i], postId)
    ensures Where(s, (l: PostTag) => IsLinkOf(l, postId)) == []
  {
    if s != [] {
      NoneKept(s[1..], postId);
    }
  }

  lemma {:induction false} AllKept(s: seq<PostTag>, postId: int)
    requires forall i :: 0 <= i < |s| ==> IsLinkOf(s[i], postId)
    ensures Where(s, (l: PostTag) => IsLinkOf(l, postId)) == s
  {
    if s != [] {
      AllKept(s[1..], postId);
    }
  }

  // ---------------------------------------------------------------------------
  // Writes
  // ---------------------------------------------------------------------------

  /** The post CreatePost inserts: the mapped DTO under the effective slug and the next key. */
  function NewPostRow(s: Store, dto: CreatePostDto, now: Time): (p: Post)
    ensures p.id == NextPostId(s.posts) && p.viewCount == 0 && !p.isDeleted
    ensures p.slug == EffectiveSlug(dto.slug.GetOr(""), dto.title)
    ensures p.authorId == dto.authorId && p.title == dto.title
  {
    var m := MapCreatePost(dto, now);
    m.(id := NextPostId(s.posts), slug := EffectiveSlug(m.slug, m.title))
  }

  /** The tables CreatePost hands to SaveChangesAsync. */
  function CreatedStore(s: Store, dto: CreatePostDto, now: Time): Store {
    var p := NewPostRow(s, dto, now);
    s.(posts := s.posts + [p], postTags := s.postTags + LinkRows(p.id, dto.tagIds, NextLinkId(s.postTags), now))
  }

  /**
   * POST api/posts with a CreatePostDto: slug guard against the visible posts,
   * then one insert of the post and one link per TagId. After the save the post
   * is read back through the Author join; when its author is soft-deleted that
   * read finds nothing and the answer is a 500, though the post is saved.
   */
  method CreatePost(db: ApplicationDb, dto: CreatePostDto, now: Time) returns (r: Response<PostDetailView>)
    requires db.Valid()
    modifies db
    ensures db.Valid()
    ensures var s := old(db.Snapshot());
      var p := NewPostRow(s, dto, now);
      var next := CreatedStore(s, dto, now);
      if VisiblePostWithSlug(s.posts, p.slug).Some? then
        r == BadRequest("A post with this slug already exists") && db.Snapshot() == s
      else if !Insertable(s, dto, p.slug) then r == ServerError && db.Snapshot() == s
      else
        && db.Snapshot() == next
        && match LoadPost(next.authors, next.tags, next.postTags, p)
           case None => r == ServerError && VisibleAuthor(s.authors, p.authorId).None?
           case Some(lp) => r == Created(p.id, ToPostDetailView(lp))
  {
    var s := db.Snapshot();
    var post := MapCreatePost(dto, now);
    var slug := EffectiveSlug(post.slug, post.title);
    if VisiblePostWithSlug(s.posts, slug).Some? {
      return BadRequest("A post with this slug already exists");
    }
    post := post.(id := NextPostId(s.posts), slug := slug);
    var links := NewLinks(post.id, dto.tagIds, NextLinkId(s.postTags), now);
    var next := s.(posts := s.posts + [post], postTags := s.postTags + links);
    CreatedStoreConstraints(s, dto, now);
    var ok := db.SaveChanges(next);
    if !ok {
      return ServerError;
    }
    var refetched := FindById(db.authors, db.posts, post.id);
    RefetchFindsNewRow(s.authors, s.posts, post);
    match refetched
    case None =>
      r := ServerError;
    case Some(i) =>
      var lp := LoadPost(db.authors, db.tags, db.postTags, db.posts[i]).value;
      r := Created(post.id, ToPostDetailView(lp));
  }

  /** The read-back after the insert finds the new row, and only when its author is visible. */
  lemma RefetchFindsNewRow(authors: seq<Author>, posts: seq<Post>, p: Post)
    requires forall j :: 0 <= j < |posts| ==> posts[j].id < p.id
    requires !p.isDeleted
    ensures var r := FindById(authors, posts + [p], p.id);
      && (r.Some? <==> VisibleAuthor(authors, p.authorId).Some?)
      && (r.Some? ==> r.value == |posts|)
  {
    var n := |posts|;
    assert (posts + [p])[n] == p;
    assert forall j :: 0 <= j < n ==> (posts + [p])[j].id != p.id;
  }

  /** CreatePost's own conditions on the request for the database to accept the insert. */
  predicate Insertable(s: Store, dto: CreatePostDto, slug: string) {
    && (forall j :: 0 <= j < |s.posts| ==> s.posts[j].slug != slug)
    && dto.authorId in AuthorIds(s.authors)
    && (forall k :: 0 <= k < |dto.tagIds| ==> dto.tagIds[k] in TagIds(s.tags))
    && (forall k, m :: 0 <= k < m < |dto.tagIds| ==> dto.tagIds[k] != dto.tagIds[m])
  }

  /**
   * What the database checks on CreatePost's tables, in the request's terms:
   * no row at all with the slug, an author row, an existing tag row for every
   * TagId, and no TagId twice.
   */
  lemma CreatedStoreConstraints(s: Store, dto: CreatePostDto, now: Time)
    requires StoreConstraints(s)
    ensures StoreConstraints(CreatedStore(s, dto, now)) <==> Insertable(s, dto, NewPostRow(s, dto, now).slug)
  {
    if StoreConstraints(CreatedStore(s, dto, now)) {
      CreatedStoreRefused(s, dto, now);
    }
    if Insertable(s, dto, NewPostRow(s, dto, now).slug) {
      CreatedStoreAccepted(s, dto, now);
    }
  }

  lemma CreatedStoreRefused(s: Store, dto: CreatePostDto, now: Time)
    requires StoreConstraints(CreatedStore(s, dto, now))
    ensures Insertable(s, dto, NewPostRow(s, dto, now).slug)
  {
    var p := NewPostRow(s, dto, now);
    var rows := LinkRows(p.id, dto.tagIds, NextLinkId(s.postTags), now);
    var posts', links' := s.posts + [p], s.postTags + rows;
    var n, L := |s.posts|, |s.postTags|;
    assert CreatedStore(s, dto, now) == s.(posts := posts', postTags := links');
    assert posts'[n] == p;
    forall j | 0 <= j < n ensures s.posts[j].slug != p.slug {
      assert posts'[j] == s.posts[j];
      assert posts'[j].slug != posts'[n].slug;
    }
    assert posts'[n].authorId in AuthorIds(s.authors);
    forall k | 0 <= k < |dto.tagIds| ensures dto.tagIds[k] in TagIds(s.tags) {
      assert links'[L + k] == rows[k];
    }
    forall k, m | 0 <= k < m < |dto.tagIds| ensures dto.tagIds[k] != dto.tagIds[m] {
      assert links'[L + k] == rows[k] && links'[L + m] == rows[m];
      assert (links'[L + k].postId, links'[L + k].tagId) != (links'[L + m].postId, links'[L + m].tagId);
    }
  }

  lemma CreatedStoreAccepted(s: Store, dto: CreatePostDto, now: Time)
    requires StoreConstraints(s)
    requires Insertable(s, dto, NewPostRow(s, dto, now).slug)
    ensures StoreConstraints(CreatedStore(s, dto, now))
  {
    var p := NewPostRow(s, dto, now);
    var rows := LinkRows(p.id, dto.tagIds, NextLinkId(s.postTags), now);
    var posts' := s.posts + [p];
    assert CreatedStore(s, dto, now) == s.(posts := posts', postTags := s.postTags + rows);
    PostIdsAppend(s.posts, p);
    AppendPostConstraints(s.authors, s.posts, s.tags, s.postTags, p);
    forall j | 0 <= j < |s.postTags| ensures s.postTags[j].postId != p.id {
      var q :| q in s.posts && q.id == s.postTags[j].postId;
    }
    AppendRowsAccepted(s.authors, posts', s.tags, s.postTags, rows, p.id);
  }

  /**
   * New join rows for one post that has no rows yet: accepted when their keys
   * come after every existing key, their tags exist and no tag repeats.
   */
  lemma AppendRowsAccepted(authors: seq<Author>, posts: seq<Post>, tags: seq<Tag>, links: seq<PostTag>,
                           rows: seq<PostTag>, postId: int)
    requires BlogConstraints(authors, posts, tags, links)
    requires postId in PostIds(posts)
    requires forall j :: 0 <= j < |links| ==> links[j].postId != postId
    requires forall k :: 0 <= k < |rows| ==> rows[k].postId == postId && rows[k].tagId in TagIds(tags)
    requires forall j, k :: 0 <= j < |links| && 0 <= k < |rows| ==> links[j].id < rows[k].id
    requires forall k, m :: 0 <= k < m < |rows| ==> rows[k].id != rows[m].id && rows[k].tagId != rows[m].tagId
    ensures BlogConstraints(authors, posts, tags, links + rows)
  {
    var links' := links + rows;
    var L := |links|;
    forall a, b | 0 <= a < b < |links'|
      ensures links'[a].id != links'[b].id
      ensures (links'[a].postId, links'[a].tagId) != (links'[b].postId, links'[b].tagId)
    {
      if b < L {
        assert links'[a] == links[a] && links'[b] == links[b];
      } else if a < L {
        assert links'[a] == links[a] && links'[b] == rows[b - L];
      } else {
        assert links'[a] == rows[a - L] && links'[b] == rows[b - L];
      }
    }
    forall k | 0 <= k < |links'| ensures links'[k].postId in PostIds(posts) && links'[k].tagId in TagIds(tags) {
      if k < L {
        assert links'[k] == links[k];
      } else {
        assert links'[k] == rows[k - L];
      }
    }
  }

  /**
   * PUT api/posts/{id} with an UpdatePostDto: finds the post through the
   * filter, maps the DTO onto it, regenerates a blank slug, replaces its live
   * links by one per TagId and saves. No guard looks at the slug, so a clash
   * with any other row surfaces only as a 500 from the save.
   */
  method UpdatePost(db: ApplicationDb, id: int, dto: UpdatePostDto, now: Time) returns (r: Response<()>)
    requires db.Valid()
    modifies db
    ensures db.Valid()
    ensures !r.BadRequest?
    ensures var s := old(db.Snapshot());
      match VisiblePost(s.posts, id)
      case None => r == NotFound(PostNotFound(id)) && db.Snapshot() == s
      case Some(i) =>
        var m := MapUpdatePost(dto, s.posts[i], now);
        var p := m.(slug := EffectiveSlug(m.slug, m.title));
        var next := s.(posts := s.posts[i := p],
                       postTags := Unlinked(s.postTags, id) + LinkRows(id, dto.tagIds, NextLinkId(s.postTags), now));
        if StoreConstraints(next) then r == NoContent && db.Snapshot() == next
        else r == ServerError && db.Snapshot() == s
  {
    var s := db.Snapshot();
    match VisiblePost(s.posts, id)
    case None =>
      r := NotFound(PostNotFound(id));
    case Some(i) =>
      var post := MapUpdatePost(dto, s.posts[i], now);
      if IsBlank(post.slug) {
        post := post.(slug := Slug.GenerateSlug(post.title));
      }
      var links := NewLinks(id, dto.tagIds, NextLinkId(s.postTags), now);
      var ok := db.SaveChanges(s.(posts := s.posts[i := post], postTags := Unlinked(s.postTags, id) + links));
      r := if ok then NoContent else ServerError;
  }
}
