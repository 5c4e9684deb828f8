/**
 * PostsController of SmartWare.API: the handlers that take and return Post
 * entities directly. Read-only endpoints are functions of the tables; the
 * handlers that save are methods on the context.
 */
module ApiPosts {
  import opened Wrappers
  import opened Entities
  import opened Text
  import opened Data
  import opened Actions
  import opened Queries
  import opened PostRules

  // ---------------------------------------------------------------------------
  // Listings
  // ---------------------------------------------------------------------------

  /** GET api/posts: every loaded published post, newest first. */
  function GetPosts(s: Store): (r: Response<seq<LoadedPost>>)
    ensures r.Ok? && NewestFirst(r.body)
    ensures forall lp :: lp in r.body <==> lp in LoadAll(s.authors, s.tags, s.postTags, s.posts) && lp.post.isPublished
  {
    ListingSpec(s, (lp: LoadedPost) => true);
    Ok(PublishedPosts(s))
  }

  /** GET api/posts/author/{authorId}: the published posts of that author, newest first. */
  function GetPostsByAuthor(s: Store, authorId: int): (r: Response<seq<LoadedPost>>)
    ensures r.Ok? && NewestFirst(r.body)
    ensures forall lp :: lp in r.body <==>
      lp in LoadAll(s.authors, s.tags, s.postTags, s.posts) && lp.post.isPublished && lp.post.authorId == authorId
  {
    ListingSpec(s, (lp: LoadedPost) => lp.post.authorId == authorId);
    Ok(PostsByAuthor(s, authorId))
  }

  /** GET api/posts/tag/{tagSlug}: the published posts with a loaded tag of that slug, newest first. */
  function GetPostsByTag(s: Store, tagSlug: string): (r: Response<seq<LoadedPost>>)
    ensures r.Ok? && NewestFirst(r.body)
    ensures forall lp :: lp in r.body <==>
      lp in LoadAll(s.authors, s.tags, s.postTags, s.posts) && lp.post.isPublished
      && exists l :: l in lp.links && l.tag.slug == tagSlug
  {
    ListingSpec(s, (lp: LoadedPost) => HasTagSlug(lp, tagSlug));
    Ok(PostsByTag(s, tagSlug))
  }

  /** GET api/posts/search?query=...: a blank query is refused; otherwise the published matches, newest first. */
  function SearchPosts(s: Store, query: Option<string>): (r: Response<seq<LoadedPost>>)
    ensures IsNullOrWhiteSpace(query) ==> r == BadRequest("Search query cannot be empty")
    ensures !IsNullOrWhiteSpace(query) ==> r.Ok? && NewestFirst(r.body)
    ensures !IsNullOrWhiteSpace(query) ==> forall lp :: lp in r.body <==>
      lp in LoadAll(s.authors, s.tags, s.postTags, s.posts) && lp.post.isPublished
      && (Contains(lp.post.title, query.value) || Contains(lp.post.content, query.value)
          || (lp.post.summary.Some? && Contains(lp.post.summary.value, query.value)))
  {
    if IsNullOrWhiteSpace(query) then BadRequest("Search query cannot be empty")
    else
      SearchHitsSpec(s, query.value);
      Ok(SearchHits(s, query.value))
  }

  // ---------------------------------------------------------------------------
  // Single-post reads, which count a view
  // ---------------------------------------------------------------------------

  /**
   * GET api/posts/{id}: the post with that id, published or not, whose author
   * is visible; its view count goes up by one and nothing else changes.
   */
  method GetPost(db: ApplicationDb, id: int, now: Time) returns (r: Response<LoadedPost>)
    requires db.Valid()
    modifies db
    ensures db.Valid()
    ensures var s := old(db.Snapshot());
      match FindById(s.authors, s.posts, id)
      case None => r == NotFound(PostNotFound(id)) && db.Snapshot() == s
      case Some(i) =>
        var p := Viewed(s.posts[i], now);
        && s.posts[i].id == id
        && db.Snapshot() == s.(posts := s.posts[i := p])
        && r.Ok? && LoadPost(s.authors, s.tags, s.postTags, p) == Some(r.body)
  {
    var s := db.Snapshot();
    match FindById(s.authors, s.posts, id)
    case None =>
      r := NotFound(PostNotFound(id));
    case Some(i) =>
      var lp := RecordView(db, i, now);
      r := Ok(lp);
  }

  function SlugNotFound(slug: string): string {
    "Post with slug '" + slug + "' not found"
  }

  /** GET api/posts/slug/{slug}: like GetPost, but only a published post with that slug is found. */
  method GetPostBySlug(db: ApplicationDb, slug: string, now: Time) returns (r: Response<LoadedPost>)
    requires db.Valid()
    modifies db
    ensures db.Valid()
    ensures var s := old(db.Snapshot());
      match FindPublishedBySlug(s.authors, s.posts, slug)
      case None => r == NotFound(SlugNotFound(slug)) && db.Snapshot() == s
      case Some(i) =>
        var p := Viewed(s.posts[i], now);
        && s.posts[i].slug == slug && s.posts[i].isPublished
        && db.Snapshot() == s.(posts := s.posts[i := p])
        && r.Ok? && LoadPost(s.authors, s.tags, s.postTags, p) == Some(r.body)
  {
    var s := db.Snapshot();
    match FindPublishedBySlug(s.authors, s.posts, slug)
    case None =>
      r := NotFound(SlugNotFound(slug));
    case Some(i) =>
      var lp := RecordView(db, i, now);
      r := Ok(lp);
  }

  // ---------------------------------------------------------------------------
  // Writes
  // ---------------------------------------------------------------------------

  /**
   * POST api/posts with a Post entity. After the title and slug guards the row
   * goes to the database as sent: an explicit Id is refused by the identity
   * column, and the unique slug index and the author foreign key see every row,
   * soft-deleted ones included; any of these ends in a 500 with nothing saved.
   */
  method CreatePost(db: ApplicationDb, post: Post) returns (r: Response<Post>)
    requires db.Valid()
    modifies db
    ensures db.Valid()
    ensures var s := old(db.Snapshot());
      var slug := EffectiveSlug(post.slug, post.title);
      var added := post.(id := NextPostId(s.posts), slug := slug);
      if IsBlank(post.title) then r == BadRequest("Title is required") && db.Snapshot() == s
      else if VisiblePostWithSlug(s.posts, slug).Some? then
        r == BadRequest("A post with this slug already exists") && db.Snapshot() == s
      else if post.id == 0 && (forall j :: 0 <= j < |s.posts| ==> s.posts[j].slug != slug)
        && post.authorId in AuthorIds(s.authors)
      then r == Created(added.id, added) && db.Snapshot() == s.(posts := s.posts + [added])
      else r == ServerError && db.Snapshot() == s
  {
    var s := db.Snapshot();
    if IsBlank(post.title) {
      return BadRequest("Title is required");
    }
    var slug := EffectiveSlug(post.slug, post.title);
    if VisiblePostWithSlug(s.posts, slug).Some? {
      return BadRequest("A post with this slug already exists");
    }
    if post.id != 0 {
      return ServerError;
    }
    var added := post.(id := NextPostId(s.posts), slug := slug);
    AppendPostConstraints(s.authors, s.posts, s.tags, s.postTags, added);
    var ok := db.SaveChanges(s.(posts := s.posts + [added]));
    if ok {
      r := Created(added.id, added);
    } else {
      r := ServerError;
    }
  }

  /**
   * The seven members UpdatePost copies from the request onto the stored post,
   * plus the UpdatedAt stamp; key, author, view count, creation time and the
   * soft-delete flag stay those of the stored row.
   */
  function Overwrite(existing: Post, post: Post, now: Time): (r: Post)
    ensures r.title == post.title && r.slug == post.slug && r.content == post.content
    ensures r.summary == post.summary && r.featuredImageUrl == post.featuredImageUrl
    ensures r.isPublished == post.isPublished && r.publishedAt == post.publishedAt
    ensures r.updatedAt == Some(now)
    ensures r.id == existing.id && r.authorId == existing.authorId && r.viewCount == existing.viewCount
    ensures r.createdAt == existing.createdAt && r.isDeleted == existing.isDeleted
  {
    existing.(title := post.title, slug := post.slug, content := post.content, summary := post.summary,
      featuredImageUrl := post.featuredImageUrl, isPublished := post.isPublished,
      publishedAt := post.publishedAt, updatedAt := Some(now))
  }

  /**
   * PUT api/posts/{id}: refuses an id that differs from the body's, finds the
   * post through the filter, overwrites it and saves. There is no slug guard:
   * a slug held by any other row makes the save fail with a 500.
   */
  method UpdatePost(db: ApplicationDb, id: int, post: Post, now: Time) returns (r: Response<()>)
    requires db.Valid()
    modifies db
    ensures db.Valid()
    ensures var s := old(db.Snapshot());
      if id != post.id then r == BadRequest("ID mismatch") && db.Snapshot() == s
      else match VisiblePost(s.posts, id)
        case None => r == NotFound(PostNotFound(id)) && db.Snapshot() == s
        case Some(i) =>
          if forall j :: 0 <= j < |s.posts| && j != i ==> s.posts[j].slug != post.slug
          then r == NoContent && db.Snapshot() == s.(posts := s.posts[i := Overwrite(s.posts[i], post, now)])
          else r == ServerError && db.Snapshot() == s
  {
    var s := db.Snapshot();
    if id != post.id {
      return BadRequest("ID mismatch");
    }
    match VisiblePost(s.posts, id)
    case None =>
      r := NotFound(PostNotFound(id));
    case Some(i) =>
      var p := Overwrite(s.posts[i], post, now);
      ReplacePostConstraints(s.authors, s.posts, s.tags, s.postTags, i, p);
      var ok := db.SaveChanges(s.(posts := s.posts[i := p]));
      r := if ok then NoContent else ServerError;
  }
}
