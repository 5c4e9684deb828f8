/**
 * The persisted entities of the blog and the user table (Core/Entities). Every
 * entity derives from a common base that carries Id, CreatedAt, UpdatedAt and
 * the soft-delete flag IsDeleted; those four fields appear in each datatype.
 *
 * Time is a count of seconds since DateTime.MinValue, so that AddDays and
 * AddMinutes become additions.
 */
module Entities {
  import opened Wrappers

  type Time = int

  /** `DateTime.AddDays(days)`. */
  function AddDays(t: Time, days: int): (r: Time)
    ensures days >= 0 ==> r >= t
  {
    t + days * 86400
  }

  /** `DateTime.AddMinutes(minutes)`. */
  function AddMinutes(t: Time, minutes: int): (r: Time)
    ensures minutes >= 0 ==> r >= t
  {
    t + minutes * 60
  }

  /** The range of a C# `int`. */
  newtype Int32 = x: int | -0x8000_0000 <= x < 0x8000_0000

  const Int32Max: Int32 := 0x7fff_ffff
  const Int32Min: Int32 := -0x8000_0000

  /**
   * `x++` on a C# `int` in the default unchecked context: the successor, except
   * that int.MaxValue wraps around to int.MinValue.
   */
  function Increment(x: Int32): (r: Int32)
    ensures x < Int32Max ==> r as int == x as int + 1
    ensures x == Int32Max ==> r == Int32Min
    ensures r as int % 0x1_0000_0000 == (x as int + 1) % 0x1_0000_0000
  {
    if x == Int32Max then Int32Min else x + 1
  }

  datatype Author = Author(
    id: int,
    firstName: string,
    lastName: string,
    email: string,
    bio: Option<string>,
    avatarUrl: Option<string>,
    createdAt: Time,
    updatedAt: Option<Time>,
    isDeleted: bool)

  datatype Post = Post(
    id: int,
    title: string,
    slug: string,
    content: string,
    summary: Option<string>,
    featuredImageUrl: Option<string>,
    isPublished: bool,
    publishedAt: Option<Time>,
    viewCount: Int32,
    authorId: int,
    createdAt: Time,
    updatedAt: Option<Time>,
    isDeleted: bool)

  datatype Tag = Tag(
    id: int,
    name: string,
    slug: string,
    createdAt: Time,
    updatedAt: Option<Time>,
    isDeleted: bool)

  /** One row of the many-to-many join table between posts and tags. */
  datatype PostTag = PostTag(
    id: int,
    postId: int,
    tagId: int,
    createdAt: Time,
    updatedAt: Option<Time>,
    isDeleted: bool)

  datatype User = User(
    id: int,
    username: string,
    email: string,
    passwordHash: string,
    firstName: Option<string>,
    lastName: Option<string>,
    avatarUrl: Option<string>,
    role: string,
    isActive: bool,
    emailConfirmed: bool,
    lastLoginAt: Option<Time>,
    refreshToken: Option<string>,
    refreshTokenExpiryTime: Option<Time>,
    createdAt: Time,
    updatedAt: Option<Time>,
    isDeleted: bool)

  /**
   * A post as the entity's initialisers leave it: no title, slug or content,
   * unpublished and never viewed. Id 0 means "not yet assigned by the database".
   */
  function NewPost(now: Time): (p: Post)
    ensures p.viewCount == 0 && !p.isPublished && !p.isDeleted && p.id == 0
  {
    Post(0, "", "", "", None, None, false, None, 0, 0, now, None, false)
  }

  /** A user as the entity's initialisers leave it: role "Reader", active, e-mail unconfirmed. */
  function NewUser(now: Time): (u: User)
    ensures u.role == "Reader" && u.isActive && !u.emailConfirmed && !u.isDeleted
    ensures u.refreshToken == None && u.lastLoginAt == None
  {
    User(0, "", "", "", None, None, None, "Reader", true, false, None, None, None, now, None, false)
  }
}
