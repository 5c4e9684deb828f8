/**
 * ApplicationDbContext: the six tables, the database constraints that the
 * context declares (primary keys, unique indexes, foreign keys), the
 * soft-delete query filters, and SaveChanges.
 *
 * Two views of a table matter and they differ:
 *  - a LINQ lookup through the context sees only rows with IsDeleted = false
 *    (the global query filters); the functions named Visible... model those;
 *  - the unique indexes and foreign keys are enforced by the database over ALL
 *    rows, soft-deleted ones included; BlogConstraints and UsersUnique model
 *    those, and SaveChanges refuses (the handlers' catch-all 500) whenever the
 *    tables it would write violate them.
 */
module Data {
  import opened Wrappers
  import opened Entities

  // ---------------------------------------------------------------------------
  // First match in table order (FirstOrDefault)
  // ---------------------------------------------------------------------------

  /** The index of the first element satisfying `p`, if any. */
  function FindFirst<T>(s: seq<T>, p: T -> bool): (r: Option<nat>)
    ensures r.Some? ==> r.value < |s| && p(s[r.value])
    ensures r.Some? ==> forall j :: 0 <= j < r.value ==> !p(s[j])
    ensures r.None? <==> forall j :: 0 <= j < |s| ==> !p(s[j])
  {
    if s == [] then None
    else if p(s[0]) then Some(0)
    else match FindFirst(s[1..], p)
      case None => None
      case Some(k) => Some(k + 1)
  }

  // ---------------------------------------------------------------------------
  // Lookups through the query filters
  // ---------------------------------------------------------------------------

  predicate IsVisiblePost(p: Post, id: int) {
    !p.isDeleted && p.id == id
  }

  /** `Posts.FindAsync(id)`: the post with that key, unless it is soft-deleted. */
  function VisiblePost(posts: seq<Post>, id: int): (r: Option<nat>)
    ensures r.Some? ==> r.value < |posts| && !posts[r.value].isDeleted && posts[r.value].id == id
    ensures r.None? <==> forall i :: 0 <= i < |posts| ==> posts[i].isDeleted || posts[i].id != id
  {
    FindFirst(posts, (p: Post) => IsVisiblePost(p, id))
  }

  /** `Authors.FindAsync(id)` through the query filter. */
  function VisibleAuthor(authors: seq<Author>, id: int): (r: Option<nat>)
    ensures r.Some? ==> r.value < |authors| && !authors[r.value].isDeleted && authors[r.value].id == id
    ensures r.None? <==> forall i :: 0 <= i < |authors| ==> authors[i].isDeleted || authors[i].id != id
  {
    FindFirst(authors, (a: Author) => !a.isDeleted && a.id == id)
  }

  /** `Tags.FindAsync(id)` through the query filter. */
  function VisibleTag(tags: seq<Tag>, id: int): (r: Option<nat>)
    ensures r.Some? ==> r.value < |tags| && !tags[r.value].isDeleted && tags[r.value].id == id
    ensures r.None? <==> forall i :: 0 <= i < |tags| ==> tags[i].isDeleted || tags[i].id != id
  {
    FindFirst(tags, (t: Tag) => !t.isDeleted && t.id == id)
  }

  // ---------------------------------------------------------------------------
  // Database constraints
  // ---------------------------------------------------------------------------

  /** Primary key Id and the unique index on Email. */
  predicate AuthorsUnique(authors: seq<Author>) {
    forall i, j :: 0 <= i < j < |authors| ==>
      authors[i].id != authors[j].id && authors[i].email != authors[j].email
  }

  /** Primary key Id and the unique index on Slug. */
  predicate PostsUnique(posts: seq<Post>) {
    forall i, j :: 0 <= i < j < |posts| ==>
      posts[i].id != posts[j].id && posts[i].slug != posts[j].slug
  }

  /** Primary key Id and the unique indexes on Name and on Slug. */
  predicate TagsUnique(tags: seq<Tag>) {
    forall i, j :: 0 <= i < j < |tags| ==>
      tags[i].id != tags[j].id && tags[i].name != tags[j].name && tags[i].slug != tags[j].slug
  }

  /** Primary key Id and the composite unique index on (PostId, TagId). */
  predicate LinksUnique(links: seq<PostTag>) {
    forall i, j :: 0 <= i < j < |links| ==>
      links[i].id != links[j].id && (links[i].postId, links[i].tagId) != (links[j].postId, links[j].tagId)
  }

  /** Primary key Id and the unique indexes on Username and on Email. */
  predicate UsersUnique(users: seq<User>) {
    forall i, j :: 0 <= i < j < |users| ==>
      users[i].id != users[j].id && users[i].username != users[j].username && users[i].email != users[j].email
  }

  function AuthorIds(authors: seq<Author>): set<int> {
    set a | a in authors :: a.id
  }

  function PostIds(posts: seq<Post>): set<int> {
    set p | p in posts :: p.id
  }

  function TagIds(tags: seq<Tag>): set<int> {
    set t | t in tags :: t.id
  }

  /** The foreign keys Post.AuthorId, PostTag.PostId and PostTag.TagId. */
  predicate ForeignKeysHold(authors: seq<Author>, posts: seq<Post>, tags: seq<Tag>, links: seq<PostTag>) {
    (forall i :: 0 <= i < |posts| ==> posts[i].authorId in AuthorIds(authors))
    && (forall i :: 0 <= i < |links| ==> links[i].postId in PostIds(posts) && links[i].tagId in TagIds(tags))
  }

  /** Everything the database enforces on the blog tables when changes are saved. */
  predicate BlogConstraints(authors: seq<Author>, posts: seq<Post>, tags: seq<Tag>, links: seq<PostTag>) {
    AuthorsUnique(authors) && PostsUnique(posts) && TagsUnique(tags) && LinksUnique(links)
    && ForeignKeysHold(authors, posts, tags, links)
  }

  /** The tables of the context as one value. */
  datatype Store = Store(
    authors: seq<Author>,
    posts: seq<Post>,
    tags: seq<Tag>,
    postTags: seq<PostTag>,
    users: seq<User>)

  predicate StoreConstraints(s: Store) {
    BlogConstraints(s.authors, s.posts, s.tags, s.postTags) && UsersUnique(s.users)
  }

  // ---------------------------------------------------------------------------
  // Keys assigned by the database on insert (identity columns)
  // ---------------------------------------------------------------------------

  /** One more than the largest key in `s` and 0: a key no existing row holds. */
  function NextKey<T>(s: seq<T>, key: T -> int): (k: int)
    ensures k >= 1
    ensures forall i :: 0 <= i < |s| ==> key(s[i]) < k
  {
    if s == [] then 1
    else var rest := NextKey(s[1..], key); if key(s[0]) < rest then rest else key(s[0]) + 1
  }

  function NextPostId(posts: seq<Post>): (k: int)
    ensures k >= 1 && forall i :: 0 <= i < |posts| ==> posts[i].id < k
  {
    NextKey(posts, (p: Post) => p.id)
  }

  function NextAuthorId(authors: seq<Author>): (k: int)
    ensures k >= 1 && forall i :: 0 <= i < |authors| ==> authors[i].id < k
  {
    NextKey(authors, (a: Author) => a.id)
  }

  function NextTagId(tags: seq<Tag>): (k: int)
    ensures k >= 1 && forall i :: 0 <= i < |tags| ==> tags[i].id < k
  {
    NextKey(tags, (t: Tag) => t.id)
  }

  function NextLinkId(links: seq<PostTag>): (k: int)
    ensures k >= 1 && forall i :: 0 <= i < |links| ==> links[i].id < k
  {
    NextKey(links, (l: PostTag) => l.id)
  }

  function NextUserId(users: seq<User>): (k: int)
    ensures k >= 1 && forall i :: 0 <= i < |users| ==> users[i].id < k
  {
    NextKey(users, (u: User) => u.id)
  }

  // ---------------------------------------------------------------------------
  // When the database accepts a changed or an added row
  // ---------------------------------------------------------------------------

  lemma PostIdsReplace(posts: seq<Post>, i: nat, p: Post)
    requires i < |posts| && p.id == posts[i].id
    ensures PostIds(posts[i := p]) == PostIds(posts)
  {
    var posts' := posts[i := p];
    forall x | x in PostIds(posts) ensures x in PostIds(posts') {
      var k :| 0 <= k < |posts| && posts[k].id == x;
      assert posts'[k].id == x;
    }
    forall x | x in PostIds(posts') ensures x in PostIds(posts) {
      var k :| 0 <= k < |posts'| && posts'[k].id == x;
      assert posts[k].id == x;
    }
  }

  lemma PostIdsAppend(posts: seq<Post>, p: Post)
    ensures PostIds(posts + [p]) == PostIds(posts) + {p.id}
  {
    var posts' := posts + [p];
    forall x | x in PostIds(posts') ensures x in PostIds(posts) + {p.id} {
      var k :| 0 <= k < |posts'| && posts'[k].id == x;
      if k < |posts| {
        assert posts[k].id == x;
      }
    }
    assert posts'[|posts|] == p;
  }

  lemma AuthorIdsReplace(authors: seq<Author>, i: nat, a: Author)
    requires i < |authors| && a.id == authors[i].id
    ensures AuthorIds(authors[i := a]) == AuthorIds(authors)
  {
    var authors' := authors[i := a];
    forall x | x in AuthorIds(authors) ensures x in AuthorIds(authors') {
      var k :| 0 <= k < |authors| && authors[k].id == x;
      assert authors'[k].id == x;
    }
    forall x | x in AuthorIds(authors') ensures x in AuthorIds(authors) {
      var k :| 0 <= k < |authors'| && authors'[k].id == x;
      assert authors[k].id == x;
    }
  }

  lemma AuthorIdsAppend(authors: seq<Author>, a: Author)
    ensures AuthorIds(authors) <= AuthorIds(authors + [a])
  {
    forall x | x in AuthorIds(authors) ensures x in AuthorIds(authors + [a]) {
      var k :| 0 <= k < |authors| && authors[k].id == x;
      assert (authors + [a])[k].id == x;
    }
  }

  lemma TagIdsReplace(tags: seq<Tag>, i: nat, t: Tag)
    requires i < |tags| && t.id == tags[i].id
    ensures TagIds(tags[i := t]) == TagIds(tags)
  {
    var tags' := tags[i := t];
    forall x | x in TagIds(tags) ensures x in TagIds(tags') {
      var k :| 0 <= k < |tags| && tags[k].id == x;
      assert tags'[k].id == x;
    }
    forall x | x in TagIds(tags') ensures x in TagIds(tags) {
      var k :| 0 <= k < |tags'| && tags'[k].id == x;
      assert tags[k].id == x;
    }
  }

  lemma TagIdsAppend(tags: seq<Tag>, t: Tag)
    ensures TagIds(tags) <= TagIds(tags + [t])
  {
    forall x | x in TagIds(tags) ensures x in TagIds(tags + [t]) {
      var k :| 0 <= k < |tags| && tags[k].id == x;
      assert (tags + [t])[k].id == x;
    }
  }

  /**
   * Rewriting post i with its key and author kept: the database accepts the
   * tables exactly when no other row, soft-deleted or not, has the new slug.
   */
  lemma ReplacePostConstraints(authors: seq<Author>, posts: seq<Post>, tags: seq<Tag>, links: seq<PostTag>, i: nat, p: Post)
    requires BlogConstraints(authors, posts, tags, links)
    requires i < |posts| && p.id == posts[i].id && p.authorId == posts[i].authorId
    ensures BlogConstraints(authors, posts[i := p], tags, links)
      <==> forall j :: 0 <= j < |posts| && j != i ==> posts[j].slug != p.slug
  {
    PostIdsReplace(posts, i, p);
    var posts' := posts[i := p];
    assert posts'[i] == p;
    if BlogConstraints(authors, posts', tags, links) {
      forall j | 0 <= j < |posts| && j != i ensures posts[j].slug != p.slug {
        assert posts'[j] == posts[j];
        if j < i {
          assert posts'[j].slug != posts'[i].slug;
        } else {
          assert posts'[i].slug != posts'[j].slug;
        }
      }
    }
    if forall j :: 0 <= j < |posts| && j != i ==> posts[j].slug != p.slug {
      forall a, b | 0 <= a < b < |posts'| ensures posts'[a].id != posts'[b].id && posts'[a].slug != posts'[b].slug {
        assert posts'[a] == (if a == i then p else posts[a]);
        assert posts'[b] == (if b == i then p else posts[b]);
      }
      forall k | 0 <= k < |posts'| ensures posts'[k].authorId in AuthorIds(authors) {
        assert posts'[k].authorId == posts[k].authorId;
      }
    }
  }

  /**
   * Adding a post under a fresh key: the database accepts it exactly when no
   * row, soft-deleted or not, has its slug and its author row exists.
   */
  lemma AppendPostConstraints(authors: seq<Author>, posts: seq<Post>, tags: seq<Tag>, links: seq<PostTag>, p: Post)
    requires BlogConstraints(authors, posts, tags, links)
    requires forall j :: 0 <= j < |posts| ==> posts[j].id < p.id
    ensures BlogConstraints(authors, posts + [p], tags, links)
      <==> (forall j :: 0 <= j < |posts| ==> posts[j].slug != p.slug) && p.authorId in AuthorIds(authors)
  {
    PostIdsAppend(posts, p);
    var posts' := posts + [p];
    var n := |posts|;
    assert posts'[n] == p;
    if BlogConstraints(authors, posts', tags, links) {
      forall j | 0 <= j < n ensures posts[j].slug != p.slug {
        assert posts'[j] == posts[j] && posts'[j].slug != posts'[n].slug;
      }
    }
    if (forall j :: 0 <= j < n ==> posts[j].slug != p.slug) && p.authorId in AuthorIds(authors) {
      forall a, b | 0 <= a < b < |posts'| ensures posts'[a].id != posts'[b].id && posts'[a].slug != posts'[b].slug {
        assert posts'[a] == posts[a];
        if b < n {
          assert posts'[b] == posts[b];
        }
      }
      forall k | 0 <= k < |posts'| ensures posts'[k].authorId in AuthorIds(authors) {
        if k < n {
          assert posts'[k] == posts[k];
        }
      }
    }
  }

  /** Rewriting author i with its key kept: accepted exactly when no other row has the new e-mail. */
  lemma ReplaceAuthorConstraints(authors: seq<Author>, posts: seq<Post>, tags: seq<Tag>, links: seq<PostTag>, i: nat, a: Author)
    requires BlogConstraints(authors, posts, tags, links)
    requires i < |authors| && a.id == authors[i].id
    ensures BlogConstraints(authors[i := a], posts, tags, links)
      <==> forall j :: 0 <= j < |authors| && j != i ==> authors[j].email != a.email
  {
    AuthorIdsReplace(authors, i, a);
    var authors' := authors[i := a];
    assert authors'[i] == a;
    if BlogConstraints(authors', posts, tags, links) {
      forall j | 0 <= j < |authors| && j != i ensures authors[j].email != a.email {
        assert authors'[j] == authors[j];
        if j < i {
          assert authors'[j].email != authors'[i].email;
        } else {
          assert authors'[i].email != authors'[j].email;
        }
      }
    }
    if forall j :: 0 <= j < |authors| && j != i ==> authors[j].email != a.email {
      forall x, y | 0 <= x < y < |authors'| ensures authors'[x].id != authors'[y].id && authors'[x].email != authors'[y].email {
        assert authors'[x] == (if x == i then a else authors[x]);
        assert authors'[y] == (if y == i then a else authors[y]);
      }
    }
  }

  /** Adding an author under a fresh key: accepted exactly when no row has its e-mail. */
  lemma AppendAuthorConstraints(authors: seq<Author>, posts: seq<Post>, tags: seq<Tag>, links: seq<PostTag>, a: Author)
    requires BlogConstraints(authors, posts, tags, links)
    requires forall j :: 0 <= j < |authors| ==> authors[j].id < a.id
    ensures BlogConstraints(authors + [a], posts, tags, links)
      <==> forall j :: 0 <= j < |authors| ==> authors[j].email != a.email
  {
    AuthorIdsAppend(authors, a);
    var authors' := authors + [a];
    var n := |authors|;
    assert authors'[n] == a;
    if BlogConstraints(authors', posts, tags, links) {
      forall j | 0 <= j < n ensures authors[j].email != a.email {
        assert authors'[j] == authors[j] && authors'[j].email != authors'[n].email;
      }
    }
    if forall j :: 0 <= j < n ==> authors[j].email != a.email {
      forall x, y | 0 <= x < y < |authors'| ensures authors'[x].id != authors'[y].id && authors'[x].email != authors'[y].email {
        assert authors'[x] == authors[x];
        if y < n {
          assert authors'[y] == authors[y];
        }
      }
      forall k | 0 <= k < |posts| ensures posts[k].authorId in AuthorIds(authors') {
      }
    }
  }

  /** Rewriting tag i with its key kept: accepted exactly when no other row has the new name or slug. */
  lemma ReplaceTagConstraints(authors: seq<Author>, posts: seq<Post>, tags: seq<Tag>, links: seq<PostTag>, i: nat, t: Tag)
    requires BlogConstraints(authors, posts, tags, links)
    requires i < |tags| && t.id == tags[i].id
    ensures BlogConstraints(authors, posts, tags[i := t], links)
      <==> forall j :: 0 <= j < |tags| && j != i ==> tags[j].name != t.name && tags[j].slug != t.slug
  {
    TagIdsReplace(tags, i, t);
    var tags' := tags[i := t];
    assert tags'[i] == t;
    if BlogConstraints(authors, posts, tags', links) {
      forall j | 0 <= j < |tags| && j != i ensures tags[j].name != t.name && tags[j].slug != t.slug {
        assert tags'[j] == tags[j];
        if j < i {
          assert tags'[j].name != tags'[i].name && tags'[j].slug != tags'[i].slug;
        } else {
          assert tags'[i].name != tags'[j].name && tags'[i].slug != tags'[j].slug;
        }
      }
    }
    if forall j :: 0 <= j < |tags| && j != i ==> tags[j].name != t.name && tags[j].slug != t.slug {
      forall x, y | 0 <= x < y < |tags'|
        ensures tags'[x].id != tags'[y].id && tags'[x].name != tags'[y].name && tags'[x].slug != tags'[y].slug
      {
        assert tags'[x] == (if x == i then t else tags[x]);
        assert tags'[y] == (if y == i then t else tags[y]);
      }
    }
  }

  /** Adding a tag under a fresh key: accepted exactly when no row has its name or its slug. */
  lemma AppendTagConstraints(authors: seq<Author>, posts: seq<Post>, tags: seq<Tag>, links: seq<PostTag>, t: Tag)
    requires BlogConstraints(authors, posts, tags, links)
    requires forall j :: 0 <= j < |tags| ==> tags[j].id < t.id
    ensures BlogConstraints(authors, posts, tags + [t], links)
      <==> forall j :: 0 <= j < |tags| ==> tags[j].name != t.name && tags[j].slug != t.slug
  {
    TagIdsAppend(tags, t);
    var tags' := tags + [t];
    var n := |tags|;
    assert tags'[n] == t;
    if BlogConstraints(authors, posts, tags', links) {
      forall j | 0 <= j < n ensures tags[j].name != t.name && tags[j].slug != t.slug {
        assert tags'[j] == tags[j] && tags'[j].name != tags'[n].name && tags'[j].slug != tags'[n].slug;
      }
    }
    if forall j :: 0 <= j < n ==> tags[j].name != t.name && tags[j].slug != t.slug {
      forall x, y | 0 <= x < y < |tags'|
        ensures tags'[x].id != tags'[y].id && tags'[x].name != tags'[y].name && tags'[x].slug != tags'[y].slug
      {
        assert tags'[x] == tags[x];
        if y < n {
          assert tags'[y] == tags[y];
        }
      }
      forall k | 0 <= k < |links| ensures links[k].tagId in TagIds(tags') {
      }
    }
  }

  /** Rewriting a user without touching its key, username or e-mail keeps the user indexes. */
  lemma ReplaceUserKeepsUnique(users: seq<User>, i: nat, u: User)
    requires UsersUnique(users)
    requires i < |users| && u.id == users[i].id && u.username == users[i].username && u.email == users[i].email
    ensures UsersUnique(users[i := u])
  {
  }

  /** Adding a user under a fresh key: accepted exactly when no row has its username or its e-mail. */
  lemma AppendUserUnique(users: seq<User>, u: User)
    requires UsersUnique(users)
    requires forall j :: 0 <= j < |users| ==> users[j].id < u.id
    ensures UsersUnique(users + [u])
      <==> forall j :: 0 <= j < |users| ==> users[j].username != u.username && users[j].email != u.email
  {
    var users' := users + [u];
    var n := |users|;
    assert users'[n] == u;
    if UsersUnique(users') {
      forall j | 0 <= j < n ensures users[j].username != u.username && users[j].email != u.email {
        assert users'[j] == users[j];
        assert users'[j].username != users'[n].username && users'[j].email != users'[n].email;
      }
    }
    if forall j :: 0 <= j < n ==> users[j].username != u.username && users[j].email != u.email {
      forall x, y | 0 <= x < y < |users'|
        ensures users'[x].id != users'[y].id && users'[x].username != users'[y].username && users'[x].email != users'[y].email
      {
        assert users'[x] == users[x];
        if y < n {
          assert users'[y] == users[y];
        }
      }
    }
  }

  // ---------------------------------------------------------------------------
  // The context
  // ---------------------------------------------------------------------------

  class ApplicationDb {
    var authors: seq<Author>
    var posts: seq<Post>
    var tags: seq<Tag>
    var postTags: seq<PostTag>
    var users: seq<User>

    /** Every table satisfies the constraints the database enforces. */
    ghost predicate Valid()
      reads this
    {
      StoreConstraints(Snapshot())
    }

    function Snapshot(): Store
      reads this
    {
      Store(authors, posts, tags, postTags, users)
    }

    constructor ()
      ensures Valid() && Snapshot() == Store([], [], [], [], [])
    {
      authors, posts, tags, postTags, users := [], [], [], [], [];
    }

    /**
     * SaveChangesAsync: writes the tables the change tracker has built up, or,
     * when the database would reject them (a unique index or a foreign key),
     * writes nothing and reports the failure the handlers turn into a 500.
     */
    method SaveChanges(next: Store) returns (ok: bool)
      requires Valid()
      modifies this
      ensures Valid()
      ensures ok == StoreConstraints(next)
      ensures Snapshot() == if ok then next else old(Snapshot())
    {
      ok := StoreConstraints(next);
      if ok {
        authors, posts, tags, postTags, users := next.authors, next.posts, next.tags, next.postTags, next.users;
      }
    }
  }
}
