/**
 * AuthorsController: author listings over published posts, create/update with
 * the e-mail guards, and the soft delete refused while published posts remain.
 */
module Authors {
  import opened Wrappers
  import opened Entities
  import opened Text
  import opened Data
  import opened Actions
  import opened Queries
  import opened Mapping

  function AuthorNotFound(id: int): string {
    "Author with ID " + IntToString(id) + " not found"
  }

  // ---------------------------------------------------------------------------
  // Reads
  // ---------------------------------------------------------------------------

  /** The authors the soft-delete filter lets through, in table order. */
  function VisibleAuthors(authors: seq<Author>): (r: seq<Author>)
    ensures forall a :: a in r <==> a in authors && !a.isDeleted
  {
    Where(authors, (a: Author) => !a.isDeleted)
  }

  predicate IsPublishedPostOf(p: Post, authorId: int) {
    !p.isDeleted && p.isPublished && p.authorId == authorId
  }

  /** `Include(a => a.Posts.Where(p => p.IsPublished))`: the author's visible published posts, in table order. */
  function PublishedPostsOf(posts: seq<Post>, authorId: int): (r: seq<Post>)
    ensures forall p :: p in r <==> p in posts && IsPublishedPostOf(p, authorId)
  {
    Where(posts, (p: Post) => IsPublishedPostOf(p, authorId))
  }

  function ListView(s: Store, a: Author): AuthorListView {
    ToAuthorListView(a, PublishedPostsOf(s.posts, a.id))
  }

  /** The author's PostCount is the number of its visible published posts. */
  lemma ListViewCount(s: Store, a: Author)
    ensures ListView(s, a).postCount == |PublishedPostsOf(s.posts, a.id)|
    ensures ListView(s, a).id == a.id && ListView(s, a).fullName == FullName(a)
  {
    CountAllPublished(PublishedPostsOf(s.posts, a.id));
  }

  /** GET api/authors: one AuthorListDto per visible author, counting its visible published posts. */
  function GetAuthors(s: Store): (r: Response<seq<AuthorListView>>)
    ensures r.Ok? && |r.body| == |VisibleAuthors(s.authors)|
    ensures forall i :: 0 <= i < |r.body| ==>
      && r.body[i].id == VisibleAuthors(s.authors)[i].id
      && r.body[i].postCount == |PublishedPostsOf(s.posts, r.body[i].id)|
  {
    var visible := VisibleAuthors(s.authors);
    forall i | 0 <= i < |visible| ensures ListView(s, visible[i]).postCount == |PublishedPostsOf(s.posts, visible[i].id)| {
      ListViewCount(s, visible[i]);
    }
    Ok(Select(visible, (a: Author) => ListView(s, a)))
  }

  /** A published post of author `a` loaded with its live links to visible tags; its Author is `a` by fix-up. */
  function LoadWithAuthor(s: Store, a: Author, p: Post): LoadedPost {
    LoadedPost(p, a, LoadLinks(s.postTags, s.tags, p.id))
  }

  function DetailView(s: Store, a: Author): AuthorDetailView {
    ToAuthorDetailView(a, Select(PublishedPostsOf(s.posts, a.id), (p: Post) => LoadWithAuthor(s, a, p)))
  }

  /**
   * AuthorDetailDto.Posts of author `a`: one PostListDto per visible published
   * post of `a`, in table order, each naming `a` as its author.
   */
  lemma DetailViewPosts(s: Store, a: Author)
    ensures var d := DetailView(s, a); var ps := PublishedPostsOf(s.posts, a.id);
      && d.id == a.id && d.fullName == FullName(a)
      && |d.posts| == |ps|
      && forall i :: 0 <= i < |ps| ==> d.posts[i].id == ps[i].id && d.posts[i].author == ToAuthorView(a)
  {
    var ps := PublishedPostsOf(s.posts, a.id);
    var loaded := Select(ps, (p: Post) => LoadWithAuthor(s, a, p));
    WhereAll(loaded, IsPublishedLoaded);
  }

  /** GET api/authors/{id}: the visible author with its published posts. */
  function GetAuthor(s: Store, id: int): (r: Response<AuthorDetailView>)
    ensures VisibleAuthor(s.authors, id).None? <==> r == NotFound(AuthorNotFound(id))
    ensures VisibleAuthor(s.authors, id).Some? <==> r.Ok?
    ensures r.Ok? ==> var a := s.authors[VisibleAuthor(s.authors, id).value];
      && r.body.firstName == a.firstName && r.body.lastName == a.lastName
      && r.body.fullName == FullName(a) && r.body.email == a.email
      && r.body.bio == a.bio && r.body.avatarUrl == a.avatarUrl && r.body.createdAt == a.createdAt
    ensures r.Ok? ==> var ps := PublishedPostsOf(s.posts, id);
      && r.body.id == id && |r.body.posts| == |ps|
      && forall i :: 0 <= i < |ps| ==> r.body.posts[i].id == ps[i].id && r.body.posts[i].author.id == id
  {
    match VisibleAuthor(s.authors, id)
    case None => NotFound(AuthorNotFound(id))
    case Some(k) =>
      DetailViewPosts(s, s.authors[k]);
      Ok(DetailView(s, s.authors[k]))
  }

  /** The list and the detail endpoint agree: PostCount is the number of posts GetAuthor shows. */
  lemma ListAgreesWithDetail(s: Store, i: nat)
    requires i < |VisibleAuthors(s.authors)|
    requires AuthorsUnique(s.authors)
    ensures GetAuthor(s, GetAuthors(s).body[i].id).Ok?
    ensures GetAuthors(s).body[i].postCount == |GetAuthor(s, GetAuthors(s).body[i].id).body.posts|
  {
    var a := VisibleAuthors(s.authors)[i];
    assert a in s.authors && !a.isDeleted;
    assert VisibleAuthor(s.authors, a.id).Some?;
  }

  // ---------------------------------------------------------------------------
  // Writes
  // ---------------------------------------------------------------------------

  /** `Authors.FirstOrDefaultAsync(a => a.Email == email && a.Id != exceptId)` through the filter. */
  function VisibleAuthorWithEmail(authors: seq<Author>, email: string, exceptId: Option<int>): (r: Option<nat>)
    ensures r.Some? ==>
      && r.value < |authors| && !authors[r.value].isDeleted && authors[r.value].email == email
      && (exceptId.Some? ==> authors[r.value].id != exceptId.value)
    ensures r.None? <==> forall i :: 0 <= i < |authors| ==>
      authors[i].isDeleted || authors[i].email != email || (exceptId.Some? && authors[i].id == exceptId.value)
  {
    FindFirst(authors, (a: Author) => !a.isDeleted && a.email == email && (exceptId.None? || a.id != exceptId.value))
  }

  /**
   * POST api/authors: an e-mail a visible author has is refused; one only a
   * soft-deleted author has passes the guard and the unique index refuses it
   * (a 500). The answer is the new author's detail view, with no posts.
   */
  method CreateAuthor(db: ApplicationDb, dto: AuthorDto, now: Time) returns (r: Response<AuthorDetailView>)
    requires db.Valid()
    modifies db
    ensures db.Valid()
    ensures var s := old(db.Snapshot());
      var a := MapCreateAuthor(dto, now).(id := NextAuthorId(s.authors));
      if VisibleAuthorWithEmail(s.authors, dto.email, None).Some? then
        r == BadRequest("An author with this email already exists") && db.Snapshot() == s
      else if forall j :: 0 <= j < |s.authors| ==> s.authors[j].email != dto.email then
        r == Created(a.id, ToAuthorDetailView(a, [])) && db.Snapshot() == s.(authors := s.authors + [a])
      else r == ServerError && db.Snapshot() == s
  {
    var s := db.Snapshot();
    if VisibleAuthorWithEmail(s.authors, dto.email, None).Some? {
      return BadRequest("An author with this email already exists");
    }
    var author := MapCreateAuthor(dto, now).(id := NextAuthorId(s.authors));
    AppendAuthorConstraints(s.authors, s.posts, s.tags, s.postTags, author);
    var ok := db.SaveChanges(s.(authors := s.authors + [author]));
    if !ok {
      return ServerError;
    }
    r := Created(author.id, ToAuthorDetailView(author, []));
  }

  /**
   * PUT api/authors/{id}: NotFound comes first; then an e-mail another visible
   * author has is refused, while the author's own e-mail passes.
   */
  method UpdateAuthor(db: ApplicationDb, id: int, dto: AuthorDto, now: Time) returns (r: Response<()>)
    requires db.Valid()
    modifies db
    ensures db.Valid()
    ensures var s := old(db.Snapshot());
      match VisibleAuthor(s.authors, id)
      case None => r == NotFound(AuthorNotFound(id)) && db.Snapshot() == s
      case Some(i) =>
        if VisibleAuthorWithEmail(s.authors, dto.email, Some(id)).Some? then
          r == BadRequest("Another author with this email already exists") && db.Snapshot() == s
        else if forall j :: 0 <= j < |s.authors| && j != i ==> s.authors[j].email != dto.email then
          r == NoContent && db.Snapshot() == s.(authors := s.authors[i := MapUpdateAuthor(dto, s.authors[i], now)])
        else r == ServerError && db.Snapshot() == s
  {
    var s := db.Snapshot();
    match VisibleAuthor(s.authors, id)
    case None =>
      r := NotFound(AuthorNotFound(id));
    case Some(i) =>
      if VisibleAuthorWithEmail(s.authors, dto.email, Some(id)).Some? {
        return BadRequest("Another author with this email already exists");
      }
      var author := MapUpdateAuthor(dto, s.authors[i], now);
      ReplaceAuthorConstraints(s.authors, s.posts, s.tags, s.postTags, i, author);
      var ok := db.SaveChanges(s.(authors := s.authors[i := author]));
      r := if ok then NoContent else ServerError;
  }

  /** An author keeping its own e-mail never meets the "another author" guard. */
  lemma OwnEmailPassesGuard(authors: seq<Author>, i: nat)
    requires AuthorsUnique(authors) && i < |authors|
    ensures VisibleAuthorWithEmail(authors, authors[i].email, Some(authors[i].id)).None?
  {
    forall j | 0 <= j < |authors| && j != i
      ensures authors[j].email != authors[i].email
    {
      if j < i {
        assert authors[j].email != authors[i].email;
      } else {
        assert authors[i].email != authors[j].email;
      }
    }
  }

  /** `author.Posts.Any(p => p.IsPublished)` over the posts `Include(a => a.Posts)` loads. */
  predicate HasPublishedPosts(posts: seq<Post>, authorId: int) {
    exists j :: 0 <= j < |posts| && IsPublishedPostOf(posts[j], authorId)
  }

  /**
   * DELETE api/authors/{id}: refused while the author has a visible published
   * post; unpublished posts do not block it. Only the author's IsDeleted and
   * UpdatedAt change; its posts stay as they are.
   */
  method DeleteAuthor(db: ApplicationDb, id: int, now: Time) returns (r: Response<()>)
    requires db.Valid()
    modifies db
    ensures db.Valid()
    ensures var s := old(db.Snapshot());
      match VisibleAuthor(s.authors, id)
      case None => r == NotFound(AuthorNotFound(id)) && db.Snapshot() == s
      case Some(i) =>
        if HasPublishedPosts(s.posts, id) then
          r == BadRequest("Cannot delete author with published posts") && db.Snapshot() == s
        else
          r == NoContent
          && db.Snapshot() == s.(authors := s.authors[i := s.authors[i].(isDeleted := true, updatedAt := Some(now))])
    ensures r.NoContent? ==> VisibleAuthor(db.authors, id).None? && db.posts == old(db.posts)
  {
    var s := db.Snapshot();
    match VisibleAuthor(s.authors, id)
    case None =>
      r := NotFound(AuthorNotFound(id));
    case Some(i) =>
      if HasPublishedPosts(s.posts, id) {
        return BadRequest("Cannot delete author with published posts");
      }
      var a := s.authors[i].(isDeleted := true, updatedAt := Some(now));
      ReplaceAuthorConstraints(s.authors, s.posts, s.tags, s.postTags, i, a);
      var ok := db.SaveChanges(s.(authors := s.authors[i := a]));
      r := NoContent;
      forall j | 0 <= j < |db.authors| ensures db.authors[j].isDeleted || db.authors[j].id != id {
        if j != i {
          assert s.authors[j].id != s.authors[i].id;
        }
      }
  }

  /** Once DeleteAuthor has succeeded, the author's remaining posts disappear from every post query. */
  lemma DeletedAuthorHidesPosts(s: Store, id: int, p: Post)
    requires VisibleAuthor(s.authors, id).None? && p.authorId == id
    ensures LoadPost(s.authors, s.tags, s.postTags, p).None?
  {
  }
}
