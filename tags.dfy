/**
 * TagsController: tag listings whose links are filtered to published posts,
 * and create/update/delete with the slug guards and the in-use guard.
 */
module Tags {
  import opened Wrappers
  import opened Entities
  import opened Text
  import opened Data
  import opened Actions
  import opened Queries
  import opened Mapping
  import opened PostRules

  function TagNotFound(id: int): string {
    "Tag with ID " + IntToString(id) + " not found"
  }

  // ---------------------------------------------------------------------------
  // Reads
  // ---------------------------------------------------------------------------

  /** The tags the soft-delete filter lets through, in table order. */
  function VisibleTags(tags: seq<Tag>): (r: seq<Tag>)
    ensures forall i :: 0 <= i < |r| ==> r[i] in tags && !r[i].isDeleted
    ensures forall i :: 0 <= i < |tags| && !tags[i].isDeleted ==> tags[i] in r
  {
    Where(tags, (t: Tag) => !t.isDeleted)
  }

  /** A link `Include(t => t.PostTags.Where(pt => pt.Post.IsPublished))` loads for tag `tagId`. */
  predicate LoadsLink(s: Store, l: PostTag, tagId: int) {
    && !l.isDeleted && l.tagId == tagId
    && VisiblePost(s.posts, l.postId).Some? && s.posts[VisiblePost(s.posts, l.postId).value].isPublished
  }

  /** The posts behind the links GetTags loads for tag `tagId`, in link order: visible and published. */
  function PublishedLinkPosts(s: Store, links: seq<PostTag>, tagId: int): (r: seq<Post>)
    ensures forall i :: 0 <= i < |r| ==> r[i] in s.posts && !r[i].isDeleted && r[i].isPublished
    ensures |r| == |Where(links, (l: PostTag) => LoadsLink(s, l, tagId))|
  {
    if links == [] then []
    else
      var rest := PublishedLinkPosts(s, links[1..], tagId);
      if LoadsLink(s, links[0], tagId) then [s.posts[VisiblePost(s.posts, links[0].postId).value]] + rest
      else rest
  }

  function ListView(s: Store, t: Tag): TagListView {
    ToTagListView(t, PublishedLinkPosts(s, s.postTags, t.id))
  }

  /**
   * GET api/tags: one TagListDto per visible tag, whose PostCount is the number
   * of its live links to a visible, published post.
   */
  function GetTags(s: Store): (r: Response<seq<TagListView>>)
    ensures r.Ok? && |r.body| == |VisibleTags(s.tags)|
    ensures forall i :: 0 <= i < |r.body| ==>
      && r.body[i].id == VisibleTags(s.tags)[i].id
      && r.body[i].postCount == |Where(s.postTags, (l: PostTag) => LoadsLink(s, l, VisibleTags(s.tags)[i].id))|
  {
    var visible := VisibleTags(s.tags);
    forall i | 0 <= i < |visible| ensures CountPublished(PublishedLinkPosts(s, s.postTags, visible[i].id))
      == |PublishedLinkPosts(s, s.postTags, visible[i].id)|
    {
      CountAllPublished(PublishedLinkPosts(s, s.postTags, visible[i].id));
    }
    Ok(Select(visible, (t: Tag) => ListView(s, t)))
  }

  /**
   * A link whose post GetTag lists: a link GetTags would load whose post also
   * has a visible author, since `ThenInclude(pt => pt.Post).ThenInclude(p => p.Author)`
   * joins through the filtered authors.
   */
  predicate ListsLink(s: Store, l: PostTag, tagId: int) {
    && LoadsLink(s, l, tagId)
    && VisibleAuthor(s.authors, s.posts[VisiblePost(s.posts, l.postId).value].authorId).Some?
  }

  /**
   * The posts GetTag loads through the tag's published links, in link order:
   * one for every link it lists and no other, each with its visible author and,
   * by relationship fix-up, with exactly the one link to this tag as its PostTags.
   */
  function TagPosts(s: Store, links: seq<PostTag>, t: Tag): (r: seq<LoadedPost>)
    ensures forall lp :: lp in r ==>
      && lp.post in s.posts && !lp.post.isDeleted && lp.post.isPublished
      && lp.author in s.authors && !lp.author.isDeleted && lp.author.id == lp.post.authorId
      && |lp.links| == 1 && lp.links[0].tag == t && lp.links[0].link.tagId == t.id
      && lp.links[0].link.postId == lp.post.id
    ensures |r| == |Where(links, (l: PostTag) => ListsLink(s, l, t.id))|
    ensures forall i :: 0 <= i < |r| ==> r[i].links[0].link == Where(links, (l: PostTag) => ListsLink(s, l, t.id))[i]
  {
    if links == [] then []
    else
      var rest := TagPosts(s, links[1..], t);
      var head := links[0];
      assert Where(links, (l: PostTag) => ListsLink(s, l, t.id))
        == (if ListsLink(s, head, t.id) then [head] else []) + Where(links[1..], (l: PostTag) => ListsLink(s, l, t.id));
      if ListsLink(s, head, t.id) then
        var p := s.posts[VisiblePost(s.posts, head.postId).value];
        [LoadedPost(p, s.authors[VisibleAuthor(s.authors, p.authorId).value], [LoadedLink(head, t)])] + rest
      else rest
  }

  /**
   * TagDetailDto.Posts of tag `t`: one entry per link GetTag lists, in link
   * order, each showing `t` as its only tag.
   */
  lemma TagDetailPosts(s: Store, t: Tag)
    ensures var d := ToTagDetailView(t, TagPosts(s, s.postTags, t));
      var listed := Where(s.postTags, (l: PostTag) => ListsLink(s, l, t.id));
      && |d.posts| == |listed|
      && forall i :: 0 <= i < |listed| ==> d.posts[i].id == listed[i].postId && d.posts[i].tags == [ToTagView(t)]
  {
    var posts := TagPosts(s, s.postTags, t);
    var listed := Where(s.postTags, (l: PostTag) => ListsLink(s, l, t.id));
    WhereAll(posts, IsPublishedLoaded);
    var views := Select(posts, ToPostListView);
    assert PublishedViews(posts) == views;
    forall i | 0 <= i < |posts| ensures views[i].id == listed[i].postId && views[i].tags == [ToTagView(t)] {
      var lp := posts[i];
      assert lp in posts;
      assert views[i] == ToPostListView(lp);
      assert TagsOf(lp) == [LinkTag(lp.links[0])];
    }
  }

  /**
   * GET api/tags/{id}: the visible tag with its published posts, one for each
   * live link of the tag to a visible published post with a visible author, in
   * link order; every post in the answer lists this tag, and only this tag,
   * among its Tags.
   */
  function GetTag(s: Store, id: int): (r: Response<TagDetailView>)
    ensures VisibleTag(s.tags, id).None? <==> r == NotFound(TagNotFound(id))
    ensures VisibleTag(s.tags, id).Some? <==> r.Ok?
    ensures r.Ok? ==> r.body.id == id
    ensures r.Ok? ==> var t := s.tags[VisibleTag(s.tags, id).value];
      r.body.name == t.name && r.body.slug == t.slug && r.body.createdAt == t.createdAt
    ensures r.Ok? ==> var listed := Where(s.postTags, (l: PostTag) => ListsLink(s, l, id));
      && |r.body.posts| == |listed|
      && forall i :: 0 <= i < |listed| ==>
           r.body.posts[i].id == listed[i].postId && r.body.posts[i].tags == [TagView(id, r.body.name, r.body.slug)]
  {
    match VisibleTag(s.tags, id)
    case None => NotFound(TagNotFound(id))
    case Some(k) =>
      var t := s.tags[k];
      TagDetailPosts(s, t);
      assert t.id == id;
      Ok(ToTagDetailView(t, TagPosts(s, s.postTags, t)))
  }

  // ---------------------------------------------------------------------------
  // Writes
  // ---------------------------------------------------------------------------

  /** `Tags.FirstOrDefaultAsync(t => t.Slug == slug && t.Id != exceptId)` through the filter. */
  function VisibleTagWithSlug(tags: seq<Tag>, slug: string, exceptId: Option<int>): (r: Option<nat>)
    ensures r.Some? ==>
      && r.value < |tags| && !tags[r.value].isDeleted && tags[r.value].slug == slug
      && (exceptId.Some? ==> tags[r.value].id != exceptId.value)
    ensures r.None? <==> forall i :: 0 <= i < |tags| ==>
      tags[i].isDeleted || tags[i].slug != slug || (exceptId.Some? && tags[i].id == exceptId.value)
  {
    FindFirst(tags, (t: Tag) => !t.isDeleted && t.slug == slug && (exceptId.None? || t.id != exceptId.value))
  }

  /**
   * POST api/tags: the slug defaults to one generated from the name, a visible
   * tag with that slug is refused, and the database refuses a name or a slug
   * any row already has (a 500). The answer is the new tag's detail view,
   * with no posts.
   */
  method CreateTag(db: ApplicationDb, dto: TagDto, now: Time) returns (r: Response<TagDetailView>)
    requires db.Valid()
    modifies db
    ensures db.Valid()
    ensures var s := old(db.Snapshot());
      var m := MapCreateTag(dto, now);
      var t := m.(id := NextTagId(s.tags), slug := EffectiveSlug(m.slug, m.name));
      if VisibleTagWithSlug(s.tags, t.slug, None).Some? then
        r == BadRequest("A tag with this slug already exists") && db.Snapshot() == s
      else if forall j :: 0 <= j < |s.tags| ==> s.tags[j].name != t.name && s.tags[j].slug != t.slug then
        r == Created(t.id, TagDetailView(t.id, t.name, t.slug, t.createdAt, [])) && db.Snapshot() == s.(tags := s.tags + [t])
      else r == ServerError && db.Snapshot() == s
  {
    var s := db.Snapshot();
    var tag := MapCreateTag(dto, now);
    tag := tag.(slug := EffectiveSlug(tag.slug, tag.name));
    if VisibleTagWithSlug(s.tags, tag.slug, None).Some? {
      return BadRequest("A tag with this slug already exists");
    }
    tag := tag.(id := NextTagId(s.tags));
    AppendTagConstraints(s.authors, s.posts, s.tags, s.postTags, tag);
    var ok := db.SaveChanges(s.(tags := s.tags + [tag]));
    if !ok {
      return ServerError;
    }
    r := Created(tag.id, ToTagDetailView(tag, []));
  }

  /**
   * PUT api/tags/{id}: FindAsync through the filter, map the DTO onto the
   * tag, default a blank slug, refuse a slug another visible tag has, save.
   * Keeping the tag's own slug never trips the guard.
   */
  method UpdateTag(db: ApplicationDb, id: int, dto: TagDto, now: Time) returns (r: Response<()>)
    requires db.Valid()
    modifies db
    ensures db.Valid()
    ensures var s := old(db.Snapshot());
      match VisibleTag(s.tags, id)
      case None => r == NotFound(TagNotFound(id)) && db.Snapshot() == s
      case Some(i) =>
        var m := MapUpdateTag(dto, s.tags[i], now);
        var t := m.(slug := EffectiveSlug(m.slug, m.name));
        if VisibleTagWithSlug(s.tags, t.slug, Some(id)).Some? then
          r == BadRequest("Another tag with this slug already exists") && db.Snapshot() == s
        else if forall j :: 0 <= j < |s.tags| && j != i ==> s.tags[j].name != t.name && s.tags[j].slug != t.slug then
          r == NoContent && db.Snapshot() == s.(tags := s.tags[i := t])
        else r == ServerError && db.Snapshot() == s
  {
    var s := db.Snapshot();
    match VisibleTag(s.tags, id)
    case None =>
      r := NotFound(TagNotFound(id));
    case Some(i) =>
      var tag := MapUpdateTag(dto, s.tags[i], now);
      tag := tag.(slug := EffectiveSlug(tag.slug, tag.name));
      if VisibleTagWithSlug(s.tags, tag.slug, Some(id)).Some? {
        return BadRequest("Another tag with this slug already exists");
      }
      ReplaceTagConstraints(s.authors, s.posts, s.tags, s.postTags, i, tag);
      var ok := db.SaveChanges(s.(tags := s.tags[i := tag]));
      r := if ok then NoContent else ServerError;
  }

  /** A tag keeping its own slug never meets the "another tag" guard: only other tags can. */
  lemma OwnSlugPassesGuard(tags: seq<Tag>, i: nat, id: int)
    requires TagsUnique(tags) && i < |tags| && tags[i].id == id
    ensures VisibleTagWithSlug(tags, tags[i].slug, Some(id)).None?
  {
    forall j | 0 <= j < |tags| && j != i
      ensures tags[j].slug != tags[i].slug
    {
      if j < i {
        assert tags[j].slug != tags[i].slug;
      } else {
        assert tags[i].slug != tags[j].slug;
      }
    }
  }

  /** A live link to tag `tagId`, whatever its post: what `Include(t => t.PostTags)` loads. */
  predicate InUse(links: seq<PostTag>, tagId: int) {
    exists j :: 0 <= j < |links| && !links[j].isDeleted && links[j].tagId == tagId
  }

  /**
   * DELETE api/tags/{id}: a tag with any live link, published post or not, is
   * refused; otherwise only its IsDeleted and UpdatedAt change.
   */
  method DeleteTag(db: ApplicationDb, id: int, now: Time) returns (r: Response<()>)
    requires db.Valid()
    modifies db
    ensures db.Valid()
    ensures var s := old(db.Snapshot());
      match VisibleTag(s.tags, id)
      case None => r == NotFound(TagNotFound(id)) && db.Snapshot() == s
      case Some(i) =>
        if InUse(s.postTags, id) then r == BadRequest("Cannot delete tag that is in use") && db.Snapshot() == s
        else r == NoContent && db.Snapshot() == s.(tags := s.tags[i := s.tags[i].(isDeleted := true, updatedAt := Some(now))])
    ensures r.NoContent? ==> VisibleTag(db.tags, id).None?
  {
    var s := db.Snapshot();
    match VisibleTag(s.tags, id)
    case None =>
      r := NotFound(TagNotFound(id));
    case Some(i) =>
      if InUse(s.postTags, id) {
        return BadRequest("Cannot delete tag that is in use");
      }
      var t := s.tags[i].(isDeleted := true, updatedAt := Some(now));
      ReplaceTagConstraints(s.authors, s.posts, s.tags, s.postTags, i, t);
      var ok := db.SaveChanges(s.(tags := s.tags[i := t]));
      r := NoContent;
      forall j | 0 <= j < |db.tags| ensures db.tags[j].isDeleted || db.tags[j].id != id {
        if j != i {
          assert s.tags[j].id != s.tags[i].id;
        }
      }
  }
}
