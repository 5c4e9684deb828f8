/**
 * BlogMappingProfile: the projections from loaded entities to the views the
 * DTO controllers return, and the mappings from request DTOs onto entities.
 * AutoMapper copies every member of the same name; the profile adds the
 * computed members (FullName, PostCount, Posts, Tags) and the Ignore()d ones.
 */
module Mapping {
  import opened Wrappers
  import opened Entities
  import opened Queries

  // ---------------------------------------------------------------------------
  // Views
  // ---------------------------------------------------------------------------

  datatype AuthorView = AuthorView(
    id: int, fullName: string, email: string, bio: Option<string>, avatarUrl: Option<string>)

  datatype AuthorListView = AuthorListView(
    id: int, fullName: string, email: string, avatarUrl: Option<string>, postCount: int)

  datatype TagView = TagView(id: int, name: string, slug: string)

  datatype TagListView = TagListView(id: int, name: string, slug: string, postCount: int)

  /** PostListDto. Its PublishedAt is not nullable: a missing date becomes DateTime.MinValue (0). */
  datatype PostListView = PostListView(
    id: int, title: string, slug: string, summary: Option<string>, featuredImageUrl: Option<string>,
    publishedAt: Time, viewCount: Int32, author: AuthorView, tags: seq<TagView>)

  datatype PostDetailView = PostDetailView(
    id: int, title: string, slug: string, content: string, summary: Option<string>,
    featuredImageUrl: Option<string>, publishedAt: Time, viewCount: Int32,
    createdAt: Time, updatedAt: Option<Time>, author: AuthorView, tags: seq<TagView>)

  datatype AuthorDetailView = AuthorDetailView(
    id: int, firstName: string, lastName: string, fullName: string, email: string,
    bio: Option<string>, avatarUrl: Option<string>, createdAt: Time, posts: seq<PostListView>)

  datatype TagDetailView = TagDetailView(
    id: int, name: string, slug: string, createdAt: Time, posts: seq<PostListView>)

  // ---------------------------------------------------------------------------
  // Request DTOs
  // ---------------------------------------------------------------------------

  datatype CreatePostDto = CreatePostDto(
    title: string, slug: Option<string>, content: string, summary: Option<string>,
    featuredImageUrl: Option<string>, isPublished: bool, publishedAt: Option<Time>,
    authorId: int, tagIds: seq<int>)

  datatype UpdatePostDto = UpdatePostDto(
    title: string, slug: Option<string>, content: string, summary: Option<string>,
    featuredImageUrl: Option<string>, isPublished: bool, publishedAt: Option<Time>,
    authorId: int, tagIds: seq<int>)

  datatype TagDto = TagDto(name: string, slug: Option<string>)

  datatype AuthorDto = AuthorDto(
    firstName: string, lastName: string, email: string, bio: Option<string>, avatarUrl: Option<string>)

  // ---------------------------------------------------------------------------
  // Generic projections
  // ---------------------------------------------------------------------------

  /** LINQ `Select`. */
  function Select<T, U>(s: seq<T>, f: T -> U): (r: seq<U>)
    ensures |r| == |s|
    ensures forall i :: 0 <= i < |s| ==> r[i] == f(s[i])
  {
    if s == [] then [] else [f(s[0])] + Select(s[1..], f)
  }

  predicate IsPublished(p: Post) {
    p.isPublished
  }

  /** `Count(p => p.IsPublished)`. */
  function CountPublished(posts: seq<Post>): nat {
    if posts == [] then 0
    else (if posts[0].isPublished then 1 else 0) + CountPublished(posts[1..])
  }

  /** The count is the length of the published-only list, so never more than all posts. */
  lemma {:induction false} CountPublishedIsFilterLength(posts: seq<Post>)
    ensures CountPublished(posts) == |Where(posts, IsPublished)|
    ensures CountPublished(posts) <= |posts|
  {
    if posts != [] {
      CountPublishedIsFilterLength(posts[1..]);
    }
  }

  /** Every post counted is published, so PostCount is the number of loaded links. */
  lemma {:induction false} CountAllPublished(posts: seq<Post>)
    requires forall i :: 0 <= i < |posts| ==> posts[i].isPublished
    ensures CountPublished(posts) == |posts|
  {
    if posts != [] {
      CountAllPublished(posts[1..]);
    }
  }

  /** Counting published posts distributes over concatenation. */
  lemma {:induction false} CountPublishedAppend(a: seq<Post>, b: seq<Post>)
    ensures CountPublished(a + b) == CountPublished(a) + CountPublished(b)
  {
    if a == [] {
      assert a + b == b;
    } else {
      assert (a + b)[1..] == a[1..] + b;
      CountPublishedAppend(a[1..], b);
    }
  }

  // ---------------------------------------------------------------------------
  // Author views
  // ---------------------------------------------------------------------------

  /** `$"{FirstName} {LastName}"`. */
  function FullName(a: Author): (r: string)
    ensures |r| == |a.firstName| + 1 + |a.lastName|
    ensures r[..|a.firstName|] == a.firstName && r[|a.firstName|] == ' ' && r[|a.firstName| + 1..] == a.lastName
  {
    a.firstName + " " + a.lastName
  }

  function ToAuthorView(a: Author): AuthorView {
    AuthorView(a.id, FullName(a), a.email, a.bio, a.avatarUrl)
  }

  /** Author to AuthorListDto over the author's loaded posts. */
  function ToAuthorListView(a: Author, posts: seq<Post>): AuthorListView {
    AuthorListView(a.id, FullName(a), a.email, a.avatarUrl, CountPublished(posts))
  }

  function PostOf(lp: LoadedPost): Post {
    lp.post
  }

  predicate IsPublishedLoaded(lp: LoadedPost) {
    lp.post.isPublished
  }

  /** `Posts.Where(p => p.IsPublished)` mapped to PostListDto, in their loaded order. */
  function PublishedViews(posts: seq<LoadedPost>): seq<PostListView> {
    Select(Where(posts, IsPublishedLoaded), ToPostListView)
  }

  /** Author to AuthorDetailDto over the author's loaded posts. */
  function ToAuthorDetailView(a: Author, posts: seq<LoadedPost>): AuthorDetailView {
    AuthorDetailView(a.id, a.firstName, a.lastName, FullName(a), a.email, a.bio, a.avatarUrl,
      a.createdAt, PublishedViews(posts))
  }

  /** The three author views carry the same FullName: first name, one space, last name. */
  lemma AuthorViewsFullName(a: Author, posts: seq<Post>, loaded: seq<LoadedPost>)
    ensures var name := ToAuthorView(a).fullName;
      && name == ToAuthorListView(a, posts).fullName
      && name == ToAuthorDetailView(a, loaded).fullName
      && name[..|a.firstName|] == a.firstName && name[|a.firstName|] == ' '
      && name[|a.firstName| + 1..] == a.lastName
  {
  }

  /**
   * AuthorListDto.PostCount is the number of the author's published posts, never
   * more than all of them, and equals the length of AuthorDetailDto.Posts when both
   * are built from the same loaded posts.
   */
  lemma {:induction false} AuthorPostCount(a: Author, loaded: seq<LoadedPost>)
    ensures var posts := Select(loaded, PostOf);
      && ToAuthorListView(a, posts).postCount <= |posts|
      && ToAuthorListView(a, posts).postCount == |ToAuthorDetailView(a, loaded).posts|
  {
    var posts := Select(loaded, PostOf);
    CountPublishedIsFilterLength(posts);
    PublishedCountMatches(loaded);
  }

  lemma {:induction false} PublishedCountMatches(loaded: seq<LoadedPost>)
    ensures CountPublished(Select(loaded, PostOf)) == |Where(loaded, IsPublishedLoaded)|
  {
    if loaded != [] {
      PublishedCountMatches(loaded[1..]);
      assert Select(loaded, PostOf)[1..] == Select(loaded[1..], PostOf);
    }
  }

  /** AuthorDetailDto.Posts lists the published posts, each once and in their loaded order. */
  lemma AuthorDetailPostsInOrder(a: Author, before: seq<LoadedPost>, lp: LoadedPost, after: seq<LoadedPost>)
    requires lp.post.isPublished
    ensures ToAuthorDetailView(a, before + [lp] + after).posts
      == PublishedViews(before) + [ToPostListView(lp)] + PublishedViews(after)
  {
    var wb, wa := Where(before, IsPublishedLoaded), Where(after, IsPublishedLoaded);
    WhereKeepsOrder(before, lp, after, IsPublishedLoaded);
    assert Where(before + [lp] + after, IsPublishedLoaded) == wb + [lp] + wa;
    SelectAppend(wb + [lp], wa, ToPostListView);
    SelectAppend(wb, [lp], ToPostListView);
    assert Select([lp], ToPostListView) == [ToPostListView(lp)];
  }

  lemma {:induction false} SelectAppend<T, U>(a: seq<T>, b: seq<T>, f: T -> U)
    ensures Select(a + b, f) == Select(a, f) + Select(b, f)
  {
    if a == [] {
      assert a + b == b;
    } else {
      assert (a + b)[1..] == a[1..] + b;
      SelectAppend(a[1..], b, f);
    }
  }

  // ---------------------------------------------------------------------------
  // Tag views
  // ---------------------------------------------------------------------------

  function ToTagView(t: Tag): TagView {
    TagView(t.id, t.name, t.slug)
  }

  /** Tag to TagListDto, given the posts of the tag's loaded links in link order. */
  function ToTagListView(t: Tag, linkPosts: seq<Post>): TagListView {
    TagListView(t.id, t.name, t.slug, CountPublished(linkPosts))
  }

  /** Tag to TagDetailDto: `PostTags.Where(pt => pt.Post.IsPublished).Select(pt => pt.Post)`. */
  function ToTagDetailView(t: Tag, linkPosts: seq<LoadedPost>): TagDetailView {
    TagDetailView(t.id, t.name, t.slug, t.createdAt, PublishedViews(linkPosts))
  }

  /**
   * TagListDto.PostCount counts the links whose post is published, and
   * TagDetailDto.Posts has exactly that many entries, in link order.
   */
  lemma TagPostCount(t: Tag, loaded: seq<LoadedPost>)
    ensures ToTagListView(t, Select(loaded, PostOf)).postCount == |ToTagDetailView(t, loaded).posts|
    ensures ToTagListView(t, Select(loaded, PostOf)).postCount <= |loaded|
  {
    PublishedCountMatches(loaded);
  }

  // ---------------------------------------------------------------------------
  // Post views
  // ---------------------------------------------------------------------------

  function LinkTag(l: LoadedLink): TagView {
    ToTagView(l.tag)
  }

  /** `PostTags.Select(pt => pt.Tag)`. */
  function TagsOf(lp: LoadedPost): seq<TagView> {
    Select(lp.links, LinkTag)
  }

  function ToPostListView(lp: LoadedPost): PostListView {
    var p := lp.post;
    PostListView(p.id, p.title, p.slug, p.summary, p.featuredImageUrl, p.publishedAt.GetOr(0),
      p.viewCount, ToAuthorView(lp.author), TagsOf(lp))
  }

  function ToPostDetailView(lp: LoadedPost): PostDetailView {
    var p := lp.post;
    PostDetailView(p.id, p.title, p.slug, p.content, p.summary, p.featuredImageUrl,
      p.publishedAt.GetOr(0), p.viewCount, p.createdAt, p.updatedAt, ToAuthorView(lp.author), TagsOf(lp))
  }

  /**
   * Both post views list one tag per loaded link, in link order, each the
   * link's tag, and they agree with each other on every shared member.
   */
  lemma PostViewsTags(lp: LoadedPost)
    ensures var l := ToPostListView(lp); var d := ToPostDetailView(lp);
      && |l.tags| == |lp.links|
      && (forall i :: 0 <= i < |lp.links| ==>
            l.tags[i] == TagView(lp.links[i].tag.id, lp.links[i].tag.name, lp.links[i].tag.slug))
      && d.tags == l.tags && d.author == l.author && d.id == l.id && d.slug == l.slug
      && d.viewCount == l.viewCount && d.publishedAt == l.publishedAt
      && (lp.post.publishedAt.None? ==> l.publishedAt == 0)
  {
  }

  // ---------------------------------------------------------------------------
  // Request DTOs onto entities
  // ---------------------------------------------------------------------------

  /**
   * CreatePostDto to Post. Id, CreatedAt, UpdatedAt, IsDeleted, ViewCount and the
   * navigations are ignored, so they keep the entity's initial values. A missing
   * slug maps to an empty one; the controller regenerates either.
   */
  function MapCreatePost(dto: CreatePostDto, now: Time): (p: Post)
    ensures p.id == 0 && p.viewCount == 0 && !p.isDeleted && p.updatedAt == None && p.createdAt == now
    ensures p.title == dto.title && p.content == dto.content && p.summary == dto.summary
    ensures p.featuredImageUrl == dto.featuredImageUrl && p.isPublished == dto.isPublished
    ensures p.publishedAt == dto.publishedAt && p.authorId == dto.authorId
    ensures p.slug == dto.slug.GetOr("")
  {
    NewPost(now).(title := dto.title, slug := dto.slug.GetOr(""), content := dto.content,
      summary := dto.summary, featuredImageUrl := dto.featuredImageUrl,
      isPublished := dto.isPublished, publishedAt := dto.publishedAt, authorId := dto.authorId)
  }

  /**
   * UpdatePostDto onto a stored Post: Id, CreatedAt, IsDeleted, AuthorId and
   * ViewCount are ignored and so kept; UpdatedAt becomes now.
   */
  function MapUpdatePost(dto: UpdatePostDto, existing: Post, now: Time): (p: Post)
    ensures p.id == existing.id && p.createdAt == existing.createdAt && p.isDeleted == existing.isDeleted
    ensures p.authorId == existing.authorId && p.viewCount == existing.viewCount
    ensures p.updatedAt == Some(now)
    ensures p.title == dto.title && p.content == dto.content && p.summary == dto.summary
    ensures p.featuredImageUrl == dto.featuredImageUrl && p.isPublished == dto.isPublished
    ensures p.publishedAt == dto.publishedAt && p.slug == dto.slug.GetOr("")
  {
    existing.(title := dto.title, slug := dto.slug.GetOr(""), content := dto.content,
      summary := dto.summary, featuredImageUrl := dto.featuredImageUrl,
      isPublished := dto.isPublished, publishedAt := dto.publishedAt, updatedAt := Some(now))
  }

  /** CreateTagDto to Tag: Id, CreatedAt, UpdatedAt, IsDeleted and PostTags keep their initial values. */
  function MapCreateTag(dto: TagDto, now: Time): (t: Tag)
    ensures t.id == 0 && !t.isDeleted && t.updatedAt == None && t.createdAt == now
    ensures t.name == dto.name && t.slug == dto.slug.GetOr("")
  {
    Tag(0, dto.name, dto.slug.GetOr(""), now, None, false)
  }

  /** UpdateTagDto onto a stored Tag: Id, CreatedAt and IsDeleted are kept; UpdatedAt becomes now. */
  function MapUpdateTag(dto: TagDto, existing: Tag, now: Time): (t: Tag)
    ensures t.id == existing.id && t.createdAt == existing.createdAt && t.isDeleted == existing.isDeleted
    ensures t.updatedAt == Some(now) && t.name == dto.name && t.slug == dto.slug.GetOr("")
  {
    existing.(name := dto.name, slug := dto.slug.GetOr(""), updatedAt := Some(now))
  }

  /** CreateAuthorDto to Author: Id, CreatedAt, UpdatedAt, IsDeleted and Posts keep their initial values. */
  function MapCreateAuthor(dto: AuthorDto, now: Time): (a: Author)
    ensures a.id == 0 && !a.isDeleted && a.updatedAt == None && a.createdAt == now
    ensures a.firstName == dto.firstName && a.lastName == dto.lastName && a.email == dto.email
    ensures a.bio == dto.bio && a.avatarUrl == dto.avatarUrl
  {
    Author(0, dto.firstName, dto.lastName, dto.email, dto.bio, dto.avatarUrl, now, None, false)
  }

  /** UpdateAuthorDto onto a stored Author: Id, CreatedAt and IsDeleted are kept; UpdatedAt becomes now. */
  function MapUpdateAuthor(dto: AuthorDto, existing: Author, now: Time): (a: Author)
    ensures a.id == existing.id && a.createdAt == existing.createdAt && a.isDeleted == existing.isDeleted
    ensures a.updatedAt == Some(now)
    ensures a.firstName == dto.firstName && a.lastName == dto.lastName && a.email == dto.email
    ensures a.bio == dto.bio && a.avatarUrl == dto.avatarUrl
  {
    existing.(firstName := dto.firstName, lastName := dto.lastName, email := dto.email,
      bio := dto.bio, avatarUrl := dto.avatarUrl, updatedAt := Some(now))
  }
}
