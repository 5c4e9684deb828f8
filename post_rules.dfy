/**
 * What the two posts controllers (the entity version and the DTO version) do
 * identically: choose the slug a post is stored under, look a slug up among the
 * posts the soft-delete filter lets through, record a view, and soft-delete.
 */
module PostRules {
  import opened Wrappers
  import opened Entities
  import opened Text
  import opened Data
  import opened Actions
  import opened Queries
  import Slug

  /** The slug a row is saved under: the supplied one, or one generated from `source` when it is blank. */
  function EffectiveSlug(supplied: string, source: string): (r: string)
    ensures !IsBlank(supplied) ==> r == supplied
    ensures IsBlank(supplied) ==> r == Slug.GenerateSlug(source) && Slug.IsSlug(r)
  {
    if IsBlank(supplied) then Slug.GenerateSlug(source) else supplied
  }

  /** `Posts.FirstOrDefaultAsync(p => p.Slug == slug)`: the first post with that slug the filter lets through. */
  function VisiblePostWithSlug(posts: seq<Post>, slug: string): (r: Option<nat>)
    ensures r.Some? ==> r.value < |posts| && !posts[r.value].isDeleted && posts[r.value].slug == slug
    ensures r.None? <==> forall i :: 0 <= i < |posts| ==> posts[i].isDeleted || posts[i].slug != slug
  {
    FindFirst(posts, (p: Post) => !p.isDeleted && p.slug == slug)
  }

  function PostNotFound(id: int): string {
    "Post with ID " + IntToString(id) + " not found"
  }

  /**
   * `post.ViewCount++` and the UpdatedAt stamp SaveChangesAsync puts on the
   * modified row; nothing else about the post changes.
   */
  function Viewed(p: Post, now: Time): (r: Post)
    ensures r.viewCount == Increment(p.viewCount) && r.updatedAt == Some(now)
    ensures r.(viewCount := p.viewCount, updatedAt := p.updatedAt) == p
    ensures p.viewCount < Int32Max ==> r.viewCount as int == p.viewCount as int + 1
  {
    p.(viewCount := Increment(p.viewCount), updatedAt := Some(now))
  }

  /**
   * The tail of GetPost and GetPostBySlug once the post at index i is found:
   * bump its view count, save, and hand back the loaded graph. Only post i
   * changes, and the save cannot be refused since no key, slug or author moves.
   */
  method RecordView(db: ApplicationDb, i: nat, now: Time) returns (lp: LoadedPost)
    requires db.Valid() && i < |db.posts|
    requires VisibleAuthor(db.authors, db.posts[i].authorId).Some?
    modifies db
    ensures db.Valid()
    ensures var s := old(db.Snapshot()); var p := Viewed(s.posts[i], now);
      && db.Snapshot() == s.(posts := s.posts[i := p])
      && LoadPost(s.authors, s.tags, s.postTags, p) == Some(lp)
  {
    var s := db.Snapshot();
    var p := Viewed(s.posts[i], now);
    ReplacePostConstraints(s.authors, s.posts, s.tags, s.postTags, i, p);
    var ok := db.SaveChanges(s.(posts := s.posts[i := p]));
    lp := LoadPost(s.authors, s.tags, s.postTags, p).value;
  }

  /**
   * DeletePost (identical in both controllers): FindAsync through the filter,
   * then set IsDeleted and UpdatedAt. The row stays in the table, and its id
   * no longer finds a post.
   */
  method DeletePost(db: ApplicationDb, id: int, now: Time) returns (r: Response<()>)
    requires db.Valid()
    modifies db
    ensures db.Valid()
    ensures var s := old(db.Snapshot());
      match VisiblePost(s.posts, id)
      case None => r == NotFound(PostNotFound(id)) && db.Snapshot() == s
      case Some(i) =>
        r == NoContent
        && db.Snapshot() == s.(posts := s.posts[i := s.posts[i].(isDeleted := true, updatedAt := Some(now))])
    ensures r.NoContent? ==> VisiblePost(db.posts, id).None? && |db.posts| == |old(db.posts)|
  {
    var s := db.Snapshot();
    match VisiblePost(s.posts, id)
    case None =>
      r := NotFound(PostNotFound(id));
    case Some(i) =>
      var p := s.posts[i].(isDeleted := true, updatedAt := Some(now));
      ReplacePostConstraints(s.authors, s.posts, s.tags, s.postTags, i, p);
      var ok := db.SaveChanges(s.(posts := s.posts[i := p]));
      r := NoContent;
      forall j | 0 <= j < |db.posts| ensures db.posts[j].isDeleted || db.posts[j].id != id {
        if j != i {
          assert s.posts[j].id != s.posts[i].id;
        }
      }
  }
}
