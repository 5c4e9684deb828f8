# SmartWare blog and authentication core, in Dafny

SmartWare is an ASP.NET Core blog API. It has authors, posts, tags and the
post–tag join table, plus a user table for JWT authentication. This project
models the following pieces of it:

- the request handlers of the two PostsControllers: the entity version and the
  DTO version used by the Angular back end;
- TagsController and AuthorsController;
- the AutoMapper projections of BlogMappingProfile;
- the register, login and refresh-token handlers of AuthController;
- the alternate UserService.

It then proves what they promise.

The database is the class `Data.ApplicationDb`. It holds five tables as
sequences and has one write operation, `SaveChanges`. The model tracks the two
views of a table that the application context declares, because they differ:

- **Lookups through the context** never see a soft-deleted row, because of the
  global query filters. The `Visible…` functions and the guards of every
  handler follow this view.
- **Unique indexes and foreign keys** are enforced by the database over all
  rows, soft-deleted ones included. `SaveChanges` commits exactly when they
  hold. Otherwise it writes nothing and the handler answers with its
  catch-all 500 (`ServerError`).

So a slug, e-mail, tag name or username held only by a soft-deleted row passes
the handler's guard, and the save then fails. Each handler's contract states
this third outcome exactly.

`Include(p => p.Author)` follows a required navigation. It therefore acts as an
inner join against the filtered authors, so a post whose author is soft-deleted
is not loaded by any post query.

Each handler is a method on the context. Its contract gives the response and
the whole new state as a function of the old state. Read-only endpoints are
functions of a `Data.Store` snapshot. The three auth actions are specified by
pure functions, `RegisterOutcome`, `LoginOutcome` and `RefreshOutcome`. Each
returns the answer and the users table left behind, and the handler is proved
to produce exactly that.

The clock, the random refresh token, the BCrypt salt and BCrypt itself are
parameters. BCrypt is a pair of functions, and only
`verify(p, hash(p, salt))` (`Tokens.Sound`) is assumed where a lemma needs it.

The two registration paths disagree on the new user's role. AuthController
creates a "Reader" and UserService creates a "User". Each is modelled as
written, and `UserService.RegistrationPathsAgree` states where they differ.

## Model

| member | source | states |
|---|---|---|
| Slug.GenerateSlug | SmartWare.API/Controllers/PostsController.cs:423-446 | every generated slug is well formed (`IsSlug`): only a–z, 0–9 and '-', no "--", no '-' at either end |
| Slug.CollapseHyphens | SmartWare.API/Controllers/PostsController.cs:440 | the result has no "--", keeps the first character, and only holds characters of the input |
| Slug.TrimStart | SmartWare.API/Controllers/PostsController.cs:443 | the result is a suffix of the input that does not start with '-' |
| Slug.TrimEnd | SmartWare.API/Controllers/PostsController.cs:443 | the result is a prefix of the input that does not end with '-' |
| Slug.Cleaned | SmartWare.API/Controllers/PostsController.cs:426-437 | after the replacements and the character-class filter only a–z, 0–9 and '-' remain |
| Slug.SlugIdempotent | SmartWare.API/Controllers/TagsController.cs:233-250 | slugging a slug returns it unchanged |
| Slug.SlugFixedPoints | SmartWareAngular/SmartWare/SmartWare.API/Controllers/PostsController.cs:401-418 | a string is its own slug exactly when it is well formed |
| Slug.SlugKeepsLetters | SmartWare.API/Controllers/PostsController.cs:426-437 | the non-hyphen characters of the slug are exactly the lower-cased, Turkish-folded letters and digits of the input, in order |
| Slug.SlugExample | SmartWare.API/Controllers/PostsController.cs:426-445 | "Akıllı Depo Sistemleri" becomes "akilli-depo-sistemleri" |
| Text.ContainsAt | SmartWare.API/Controllers/PostsController.cs:245-247 | string.Contains holds exactly when the query occurs at some offset |
| Entities.Increment | SmartWare.API/Controllers/PostsController.cs:90 | ViewCount++ is the successor below int.MaxValue and wraps to int.MinValue at it, that is, addition modulo 2^32 |
| Entities.NewPost | SmartWare.API/Core/Entities/Post.cs:7-15 | a new post is unpublished, never viewed and not deleted |
| Entities.NewUser | SmartWareAngular/SmartWare/SmartWare.API/Core/Entities/User.cs:7-22 | a new user has role "Reader", is active, has an unconfirmed e-mail and no refresh token or login time |
| Data.VisiblePost | SmartWareAngular/SmartWare/SmartWare.API/Data/ApplicationDbContext.cs:109 | FindAsync finds a post with that id that is not soft-deleted, and finds nothing exactly when every such row is deleted |
| Data.VisibleAuthor | SmartWareAngular/SmartWare/SmartWare.API/Data/ApplicationDbContext.cs:65 | the same lookup on authors: soft-deleted rows are never found |
| Data.VisibleTag | SmartWareAngular/SmartWare/SmartWare.API/Data/ApplicationDbContext.cs:130 | the same lookup on tags: soft-deleted rows are never found |
| Data.NextKey | SmartWareAngular/SmartWare/SmartWare.API/Data/ApplicationDbContext.cs:39 | the identity key given to an insert is positive and held by no existing row |
| Data.ReplacePostConstraints | SmartWareAngular/SmartWare/SmartWare.API/Data/ApplicationDbContext.cs:74-76 | rewriting a post under its own key and author is accepted exactly when no other row, deleted or not, has the new slug |
| Data.AppendPostConstraints | SmartWareAngular/SmartWare/SmartWare.API/Data/ApplicationDbContext.cs:74-106 | inserting a post is accepted exactly when no row has its slug and its author row exists |
| Data.ReplaceAuthorConstraints | SmartWareAngular/SmartWare/SmartWare.API/Data/ApplicationDbContext.cs:42-43 | rewriting an author is accepted exactly when no other row has the new e-mail |
| Data.AppendAuthorConstraints | SmartWareAngular/SmartWare/SmartWare.API/Data/ApplicationDbContext.cs:42-43 | inserting an author is accepted exactly when no row has its e-mail |
| Data.ReplaceTagConstraints | SmartWareAngular/SmartWare/SmartWare.API/Data/ApplicationDbContext.cs:119-120 | rewriting a tag is accepted exactly when no other row has the new name or slug |
| Data.AppendTagConstraints | SmartWareAngular/SmartWare/SmartWare.API/Data/ApplicationDbContext.cs:119-120 | inserting a tag is accepted exactly when no row has its name or slug |
| Data.ReplaceUserKeepsUnique | SmartWareAngular/SmartWare/SmartWare.API/Data/ApplicationDbContext.cs:190-191 | rewriting a user without touching key, username or e-mail keeps the user indexes |
| Data.AppendUserUnique | SmartWareAngular/SmartWare/SmartWare.API/Data/ApplicationDbContext.cs:190-191 | inserting a user is accepted exactly when no row has its username or e-mail |
| Data.ApplicationDb.SaveChanges | SmartWareAngular/SmartWare/SmartWare.API/Data/ApplicationDbContext.cs:224-238 | commits the tables exactly when every index and foreign key holds; otherwise nothing changes and failure is reported |
| Queries.Where | SmartWare.API/Controllers/PostsController.cs:44 | LINQ Where keeps exactly the elements that pass, and only elements of the input |
| Queries.WhereKeepsOrder | SmartWare.API/Features/Blog/BlogMappingProfile.cs:30 | Where keeps relative order around any element that passes |
| Queries.LoadLinks | SmartWare.API/Controllers/PostsController.cs:42-43 | a post's loaded links are its live links whose tag is visible, each paired with that tag, and every such link is loaded |
| Queries.LoadPost | SmartWare.API/Controllers/PostsController.cs:41 | a post loads exactly when its author is visible, and the loaded author is that row |
| Queries.LoadAll | SmartWare.API/Controllers/PostsController.cs:40-43 | the query loads exactly the non-deleted posts whose author is visible |
| Queries.Insert | SmartWare.API/Controllers/PostsController.cs:45 | insertion adds the element once and loses nothing |
| Queries.InsertNewestFirst | SmartWare.API/Controllers/PostsController.cs:45 | inserting into a newest-first list keeps it newest first |
| Queries.SortNewestFirst | SmartWare.API/Controllers/PostsController.cs:45 | OrderByDescending(PublishedAt) yields a permutation with non-increasing dates, a missing date last |
| Queries.ListingSpec | SmartWare.API/Controllers/PostsController.cs:44-45 | a listing holds exactly the loaded published posts passing the endpoint's filter, each once, newest first |
| Queries.ListedPostIsVisible | SmartWare.API/Controllers/PostsController.cs:40-44 | a listed post is a published, non-deleted row whose author is visible |
| Queries.SearchHitsSpec | SmartWare.API/Controllers/PostsController.cs:244-248 | a post is a hit exactly when it is loaded, published, and its title, content or non-null summary contains the query; hits are newest first |
| Queries.FindLoadable | SmartWare.API/Controllers/PostsController.cs:77-81 | FirstOrDefault over the joined query returns a non-deleted post with a visible author passing the predicate, or none exists |
| Queries.SlugLookupOnlyPublished | SmartWare.API/Controllers/PostsController.cs:122-126 | the slug lookup finds only published, non-deleted posts with that slug, and finds one whenever such a post has a visible author |
| Mapping.Select | SmartWare.API/Features/Blog/BlogMappingProfile.cs:82 | Select maps each element in place and keeps the length |
| Mapping.CountPublishedIsFilterLength | SmartWare.API/Features/Blog/BlogMappingProfile.cs:23-24 | Count(p => p.IsPublished) is the length of the published-only list and never exceeds the number of posts |
| Mapping.CountAllPublished | SmartWare.API/Features/Blog/BlogMappingProfile.cs:53 | over links already filtered to published posts, the count is the number of links |
| Mapping.CountPublishedAppend | SmartWare.API/Features/Blog/BlogMappingProfile.cs:24 | the published count of two lists together is the sum of their counts |
| Mapping.FullName | SmartWare.API/Features/Blog/BlogMappingProfile.cs:18 | FullName is the first name, one space, then the last name |
| Mapping.AuthorViewsFullName | SmartWare.API/Features/Blog/BlogMappingProfile.cs:16-28 | the three author views carry the same FullName |
| Mapping.AuthorPostCount | SmartWare.API/Features/Blog/BlogMappingProfile.cs:20-30 | AuthorListDto.PostCount is at most the number of posts and equals the length of AuthorDetailDto.Posts over the same posts |
| Mapping.PublishedCountMatches | SmartWare.API/Features/Blog/BlogMappingProfile.cs:24-30 | counting published posts agrees with filtering the loaded posts to published ones |
| Mapping.AuthorDetailPostsInOrder | SmartWare.API/Features/Blog/BlogMappingProfile.cs:29-30 | AuthorDetailDto.Posts lists the published posts in their loaded order |
| Mapping.SelectAppend | SmartWare.API/Features/Blog/BlogMappingProfile.cs:82 | Select distributes over concatenation |
| Mapping.TagPostCount | SmartWare.API/Features/Blog/BlogMappingProfile.cs:51-59 | TagListDto.PostCount equals the number of TagDetailDto.Posts built from the same links, and never exceeds the link count |
| Mapping.PostViewsTags | SmartWare.API/Features/Blog/BlogMappingProfile.cs:78-91 | both post views list one tag per loaded link, in link order, and agree on every shared member; a missing PublishedAt becomes DateTime.MinValue |
| Mapping.MapCreatePost | SmartWare.API/Features/Blog/BlogMappingProfile.cs:96-104 | the ignored members keep their initial values (no id, ViewCount 0, not deleted) and the rest are copied from the DTO |
| Mapping.MapUpdatePost | SmartWare.API/Features/Blog/BlogMappingProfile.cs:109-118 | Id, CreatedAt, IsDeleted, AuthorId and ViewCount are kept, UpdatedAt becomes now, the rest comes from the DTO |
| Mapping.MapCreateTag | SmartWare.API/Features/Blog/BlogMappingProfile.cs:61-66 | a new tag takes name and slug from the DTO and has no id, no update time and is not deleted |
| Mapping.MapUpdateTag | SmartWare.API/Features/Blog/BlogMappingProfile.cs:68-73 | Id, CreatedAt and IsDeleted are kept, UpdatedAt becomes now |
| Mapping.MapCreateAuthor | SmartWare.API/Features/Blog/BlogMappingProfile.cs:32-37 | a new author copies the DTO's members and has no id, no update time and is not deleted |
| Mapping.MapUpdateAuthor | SmartWare.API/Features/Blog/BlogMappingProfile.cs:39-44 | Id, CreatedAt and IsDeleted are kept, UpdatedAt becomes now, the rest comes from the DTO |
| PostRules.EffectiveSlug | SmartWare.API/Controllers/PostsController.cs:287-290 | a supplied slug is kept verbatim; a blank one is replaced by the well-formed slug of the title |
| PostRules.VisiblePostWithSlug | SmartWare.API/Controllers/PostsController.cs:293-294 | the slug guard finds a non-deleted post with that slug exactly when one exists |
| PostRules.Viewed | SmartWare.API/Controllers/PostsController.cs:90-91 | a view changes only ViewCount, which rises by one (wrapping at int.MaxValue), and the UpdatedAt stamp |
| PostRules.RecordView | SmartWareAngular/SmartWare/SmartWare.API/Controllers/PostsController.cs:84-85 | only the found post changes, to its viewed form; the save cannot be refused, and the loaded graph of the updated post is returned |
| PostRules.DeletePost | SmartWare.API/Controllers/PostsController.cs:388-407 | an unknown id gives NotFound with nothing changed; otherwise only that row's IsDeleted and UpdatedAt change, the row stays, and the id no longer finds a post |
| ApiPosts.GetPosts | SmartWare.API/Controllers/PostsController.cs:39-50 | exactly the loaded published posts, newest first |
| ApiPosts.GetPostsByAuthor | SmartWare.API/Controllers/PostsController.cs:164-175 | exactly the loaded published posts of that author, newest first |
| ApiPosts.GetPostsByTag | SmartWare.API/Controllers/PostsController.cs:199-210 | exactly the loaded published posts with a loaded tag of that slug, newest first |
| ApiPosts.SearchPosts | SmartWare.API/Controllers/PostsController.cs:235-253 | a null or blank query gives BadRequest; otherwise exactly the published posts containing the query in title, content or summary, newest first |
| ApiPosts.GetPost | SmartWare.API/Controllers/PostsController.cs:76-95 | not found changes nothing; otherwise the post with that id, published or not, is viewed and returned, and no other row changes |
| ApiPosts.GetPostBySlug | SmartWare.API/Controllers/PostsController.cs:121-140 | the same for the published post with that slug |
| ApiPosts.CreatePost | SmartWare.API/Controllers/PostsController.cs:281-306 | a blank title and a slug held by a visible post give BadRequest with nothing added; otherwise one post is added under the next key and the effective slug, or the save fails (explicit id, slug held by a deleted row, missing author) with nothing added |
| ApiPosts.Overwrite | SmartWare.API/Controllers/PostsController.cs:352-359 | exactly the seven request members and UpdatedAt change; key, author, view count, creation time and deletion flag stay |
| ApiPosts.UpdatePost | SmartWare.API/Controllers/PostsController.cs:339-365 | id mismatch gives BadRequest and an absent id NotFound, both with nothing changed; otherwise the post is overwritten, or a slug held by another row makes the save fail with nothing changed |
| DtoPosts.ListViews | SmartWareAngular/SmartWare/SmartWare.API/Controllers/PostsController.cs:47 | one PostListDto per post, in the same order |
| DtoPosts.GetPosts | SmartWareAngular/SmartWare/SmartWare.API/Controllers/PostsController.cs:39-51 | one view per published post of the newest-first listing, in that order |
| DtoPosts.GetPostsByAuthor | SmartWareAngular/SmartWare/SmartWare.API/Controllers/PostsController.cs:148-161 | one view per published post of that author, each naming that author |
| DtoPosts.GetPostsByTag | SmartWareAngular/SmartWare/SmartWare.API/Controllers/PostsController.cs:179-192 | one view per post of the by-tag listing, with the same ids in the same newest-first order, each showing a tag of that slug |
| DtoPosts.ViewShowsTag | SmartWare.API/Features/Blog/BlogMappingProfile.cs:81-82 | a post loaded with a link to a tag of that slug shows that tag in its view |
| DtoPosts.SearchPosts | SmartWareAngular/SmartWare/SmartWare.API/Controllers/PostsController.cs:211-231 | a blank query gives BadRequest; otherwise one view per search hit, each matching the query |
| DtoPosts.GetPost | SmartWareAngular/SmartWare/SmartWare.API/Controllers/PostsController.cs:70-91 | not found changes nothing; otherwise only that post's view count rises by one and the answer is its detail view after the increment |
| DtoPosts.GetPostBySlug | SmartWareAngular/SmartWare/SmartWare.API/Controllers/PostsController.cs:110-130 | the same for the published post with that slug |
| DtoPosts.LinkRows | SmartWareAngular/SmartWare/SmartWare.API/Controllers/PostsController.cs:270-279 | one live link per TagId, same tag, same order, all for the new post; none for empty TagIds |
| DtoPosts.NewLinks | SmartWareAngular/SmartWare/SmartWare.API/Controllers/PostsController.cs:272-278 | the loop builds exactly those links |
| DtoPosts.Unlinked | SmartWareAngular/SmartWare/SmartWare.API/Controllers/PostsController.cs:338 | after Clear() no live link of the post remains |
| DtoPosts.LinksAfterReplace | SmartWareAngular/SmartWare/SmartWare.API/Controllers/PostsController.cs:338-349 | after the replacement the post's live links are exactly the new ones, in TagIds order |
| DtoPosts.NewPostRow | SmartWareAngular/SmartWare/SmartWare.API/Controllers/PostsController.cs:252-258 | the new post has the next key, ViewCount 0, the effective slug and the DTO's author and title |
| DtoPosts.CreatePost | SmartWareAngular/SmartWare/SmartWare.API/Controllers/PostsController.cs:252-298 | a slug held by a visible post gives BadRequest with nothing added; a request the database refuses gives 500 with nothing added; otherwise the post and its links are saved, and the answer is its detail view, or a 500 after saving when its author is soft-deleted |
| DtoPosts.RefetchFindsNewRow | SmartWareAngular/SmartWare/SmartWare.API/Controllers/PostsController.cs:285-289 | the read-back finds the new row exactly when its author is visible |
| DtoPosts.CreatedStoreConstraints | SmartWareAngular/SmartWare/SmartWare.API/Controllers/PostsController.cs:281-282 | the database accepts the insert exactly when no row has the slug, the author exists, every TagId names an existing tag and no TagId repeats |
| DtoPosts.AppendRowsAccepted | SmartWareAngular/SmartWare/SmartWare.API/Data/ApplicationDbContext.cs:140-153 | new links of one post with fresh keys, existing tags and no repeated tag keep the link indexes and foreign keys |
| DtoPosts.UpdatePost | SmartWareAngular/SmartWare/SmartWare.API/Controllers/PostsController.cs:319-355 | an absent id gives NotFound with nothing changed; otherwise the mapped post with a regenerated blank slug and the replaced links are saved, or the save fails with nothing changed; it never answers BadRequest, since there is no slug guard |
| Tags.VisibleTags | SmartWare.API/Controllers/TagsController.cs:38-40 | exactly the non-deleted tags |
| Tags.PublishedLinkPosts | SmartWare.API/Controllers/TagsController.cs:39 | the loaded links' posts are visible and published, one per loaded link |
| Tags.GetTags | SmartWare.API/Controllers/TagsController.cs:34-46 | one view per visible tag, whose PostCount is the number of its live links to a visible published post |
| Tags.TagPosts | SmartWare.API/Controllers/TagsController.cs:66-70 | one loaded post for each live link of the tag to a visible published post with a visible author, in link order, and no other; each carries exactly that one link |
| Tags.TagDetailPosts | SmartWare.API/Features/Blog/BlogMappingProfile.cs:55-59 | TagDetailDto.Posts has one entry per listed link, in link order, with that link's post id and this tag as its only tag |
| Tags.GetTag | SmartWare.API/Controllers/TagsController.cs:62-82 | NotFound exactly when no visible tag has the id and Ok exactly when one has; the answer carries that tag's id, name, slug and creation time, and the posts listed are exactly those behind the tag's live links to visible published posts with visible authors, in link order, each showing exactly this tag |
| Tags.VisibleTagWithSlug | SmartWare.API/Controllers/TagsController.cs:166-167 | the guard finds a visible tag with the slug and a different id exactly when one exists |
| Tags.CreateTag | SmartWare.API/Controllers/TagsController.cs:98-129 | a blank slug becomes the slug of the name; a slug held by a visible tag gives BadRequest with nothing added; a name or slug held by any row gives 500 with nothing added; otherwise exactly one tag is added |
| Tags.UpdateTag | SmartWare.API/Controllers/TagsController.cs:146-178 | NotFound first; then a slug of another visible tag gives BadRequest with nothing changed; otherwise the mapped tag replaces the row, or the save fails with nothing changed |
| Tags.OwnSlugPassesGuard | SmartWare.API/Controllers/TagsController.cs:166-167 | a tag keeping its own slug never meets the "another tag" guard |
| Tags.DeleteTag | SmartWare.API/Controllers/TagsController.cs:195-221 | a tag with any live link, published post or not, gives BadRequest with nothing changed; otherwise only its IsDeleted and UpdatedAt change and it is no longer found |
| Authors.VisibleAuthors | SmartWareAngular/SmartWare/SmartWare.API/Controllers/AuthorsController.cs:39-41 | exactly the non-deleted authors |
| Authors.PublishedPostsOf | SmartWareAngular/SmartWare/SmartWare.API/Controllers/AuthorsController.cs:40 | exactly the author's visible published posts |
| Authors.ListViewCount | SmartWareAngular/SmartWare/SmartWare.API/Controllers/AuthorsController.cs:39-43 | an author's PostCount is the number of its visible published posts |
| Authors.GetAuthors | SmartWareAngular/SmartWare/SmartWare.API/Controllers/AuthorsController.cs:35-47 | one view per visible author, whose PostCount counts its visible published posts |
| Authors.DetailViewPosts | SmartWareAngular/SmartWare/SmartWare.API/Controllers/AuthorsController.cs:67-79 | the detail view lists one entry per visible published post of the author, in table order, each naming the author |
| Authors.GetAuthor | SmartWareAngular/SmartWare/SmartWare.API/Controllers/AuthorsController.cs:63-83 | NotFound exactly when no visible author has the id and Ok exactly when one has; the answer carries that author's names, FullName, e-mail, bio, avatar and creation time, and one entry per published post of the author, in order |
| Authors.ListAgreesWithDetail | SmartWareAngular/SmartWare/SmartWare.API/Controllers/AuthorsController.cs:39-79 | an author's PostCount in the list equals the number of posts its detail shows |
| Authors.VisibleAuthorWithEmail | SmartWareAngular/SmartWare/SmartWare.API/Controllers/AuthorsController.cs:153-154 | the guard finds a visible author with the e-mail and a different id exactly when one exists |
| Authors.CreateAuthor | SmartWareAngular/SmartWare/SmartWare.API/Controllers/AuthorsController.cs:99-124 | an e-mail of a visible author gives BadRequest with nothing added; one held only by a deleted row gives 500; otherwise exactly one author is added |
| Authors.UpdateAuthor | SmartWareAngular/SmartWare/SmartWare.API/Controllers/AuthorsController.cs:141-167 | NotFound first, then the e-mail guard against other visible authors; otherwise the mapped author replaces the row, or the save fails with nothing changed |
| Authors.OwnEmailPassesGuard | SmartWareAngular/SmartWare/SmartWare.API/Controllers/AuthorsController.cs:153-154 | an author keeping its own e-mail never meets the guard |
| Authors.DeleteAuthor | SmartWareAngular/SmartWare/SmartWare.API/Controllers/AuthorsController.cs:184-210 | NotFound for an absent id; BadRequest with nothing changed when the author has a visible published post, unpublished ones do not block; otherwise only its IsDeleted and UpdatedAt change and its posts are untouched |
| Authors.DeletedAuthorHidesPosts | SmartWareAngular/SmartWare/SmartWare.API/Controllers/AuthorsController.cs:203-206 | once the author is deleted, none of its posts loads in a post query |
| Tokens.ClaimValue | SmartWareAngular/SmartWare/SmartWare.API/Features/Auth/Services/TokenService.cs:25-33 | reading a claim type gives a value exactly when the token has a claim of that type |
| Tokens.UserClaims | SmartWareAngular/SmartWare/SmartWare.API/Features/Auth/Services/TokenService.cs:25-33 | the token carries six claims |
| Tokens.GenerateAccessToken | SmartWareAngular/SmartWare/SmartWare.API/Features/Auth/Services/TokenService.cs:39-45 | the token is issued for the configured issuer and audience and expires ExpirationMinutes after now |
| Tokens.AccessTokenIdentifiesUser | SmartWareAngular/SmartWare/SmartWare.API/Features/Auth/Services/TokenService.cs:27-30 | the token reads back as the user's id, username, e-mail and role |
| Tokens.AccessTokenNames | SmartWareAngular/SmartWare/SmartWare.API/Features/Auth/Services/TokenService.cs:31-32 | the name claims read back as the user's names, a null name as "" |
| Tokens.TokenDependsOnlyOnClaimFields | SmartWareAngular/SmartWare/SmartWare.API/Features/Auth/Services/TokenService.cs:21-45 | users that agree on the claim fields get the same token, so stamping a login or rotating a refresh token does not change it |
| Auth.UserWithUsername | SmartWare.API/Controllers/AuthController.cs:50 | finds a visible user with the username exactly when one exists |
| Auth.UserWithEmail | SmartWare.API/Controllers/AuthController.cs:56 | finds a visible user with the e-mail exactly when one exists |
| Auth.FindForLogin | SmartWare.API/Controllers/AuthController.cs:122-125 | the first visible user whose username or e-mail is the identifier, or none exists |
| Auth.FindByRefreshToken | SmartWare.API/Controllers/AuthController.cs:187-188 | the first visible user holding the token, or none holds it |
| Auth.Rotated | SmartWare.API/Controllers/AuthController.cs:206-207 | only the refresh token, its expiry (now plus RefreshTokenExpirationDays) and UpdatedAt change |
| Auth.LoggedIn | SmartWare.API/Controllers/AuthController.cs:149-152 | only the refresh token, its expiry, LastLoginAt = now and UpdatedAt change |
| Auth.NewAccount | SmartWare.API/Controllers/AuthController.cs:65-75 | the inserted user has role "Reader", is active, has an unconfirmed e-mail, the given hash and no token |
| Auth.Issue | SmartWare.API/Controllers/AuthController.cs:91-97 | the answer carries the stored refresh token, the stored user's view and an expiry ExpirationMinutes from now |
| Auth.RegisterOutcome | SmartWare.API/Controllers/AuthController.cs:50-101 | username guard before e-mail guard, both with nothing added; success exactly when no row holds the username or e-mail, and then one user holding the returned token is appended; a 500 only when a deleted row clashes |
| Auth.Register | SmartWare.API/Controllers/AuthController.cs:45-108 | the handler's answer and users table are exactly those of RegisterOutcome; other tables are untouched |
| Auth.LoginOutcome | SmartWare.API/Controllers/AuthController.cs:122-166 | unknown identifier and wrong password give the same "Invalid credentials"; "Account is deactivated" only with the right password; success exactly when found, verified and active, and then only that user is changed to LoggedIn |
| Auth.Login | SmartWare.API/Controllers/AuthController.cs:117-173 | the handler's answer and users table are exactly those of LoginOutcome |
| Auth.RefreshOutcome | SmartWare.API/Controllers/AuthController.cs:187-222 | unknown token and expiry at or before now are refused with nothing changed; otherwise only that user's token is rotated, LastLoginAt kept, IsActive not consulted |
| Auth.RefreshToken | SmartWare.API/Controllers/AuthController.cs:182-229 | the handler's answer and users table are exactly those of RefreshOutcome |
| Auth.StoredTokenRefreshes | SmartWare.API/Controllers/AuthController.cs:187-199 | a token held by one user is accepted exactly until its expiry |
| Auth.RegisterThenRefresh | SmartWare.API/Controllers/AuthController.cs:85-94 | the token Register returns is the stored one and is redeemable until RefreshTokenExpirationDays after registration |
| Auth.LoginThenRefresh | SmartWare.API/Controllers/AuthController.cs:149-159 | the token Login returns is the stored one and is redeemable until RefreshTokenExpirationDays after login |
| Auth.RefreshRotates | SmartWare.API/Controllers/AuthController.cs:202-215 | the new token is redeemable until RefreshTokenExpirationDays later and the old one no longer finds the user, given distinct tokens |
| Auth.RegisterStoresVerifyingHash | SmartWare.API/Controllers/AuthController.cs:62-69 | the stored hash verifies the registered password |
| Auth.RegisterThenLogin | SmartWare.API/Controllers/AuthController.cs:62-78 | a newly registered user can log in with username and password and is a "Reader" |
| UserService.Authenticate | SmartWareAngular/SmartWare/SmartWare.API/Features/Auth/Services/UserService.cs:19-36 | a user is returned exactly when a visible user has the identifier and the password verifies; IsActive is not consulted |
| UserService.AuthenticateAgreesWithLogin | SmartWareAngular/SmartWare/SmartWare.API/Features/Auth/Services/UserService.cs:22-35 | the service accepts the same credentials as the controller's login, except that the login also refuses inactive accounts; both pick the same user |
| UserService.UserWithUsernameOrEmail | SmartWareAngular/SmartWare/SmartWare.API/Features/Auth/Services/UserService.cs:41-43 | finds nothing exactly when no visible user has the username or the e-mail |
| UserService.ServiceAccount | SmartWareAngular/SmartWare/SmartWare.API/Features/Auth/Services/UserService.cs:49-57 | the inserted user has role "User", is active, has an unconfirmed e-mail and no token |
| UserService.ServiceRegistration | SmartWareAngular/SmartWare/SmartWare.API/Features/Auth/Services/UserService.cs:41-62 | a visible clash gives the exception's message with nothing added; success exactly when no row clashes, and then exactly one user is appended |
| UserService.RegisterAsync | SmartWareAngular/SmartWare/SmartWare.API/Features/Auth/Services/UserService.cs:38-63 | the method's result and users table are exactly those of ServiceRegistration |
| UserService.RegistrationPathsAgree | SmartWareAngular/SmartWare/SmartWare.API/Features/Auth/Services/UserService.cs:49-57 | both paths refuse and accept the same requests and add the same user, except for the role ("Reader" vs "User") and the controller's refresh token |
| UserService.ServiceStoresVerifyingHash | SmartWareAngular/SmartWare/SmartWare.API/Features/Auth/Services/UserService.cs:53 | the stored hash verifies the registered password |
| UserService.ServiceRegistrationThenAuthenticate | SmartWareAngular/SmartWare/SmartWare.API/Features/Auth/Services/UserService.cs:19-60 | a user registered through the service authenticates with its username and password |

## Left out

- JWT signing and encoding (HS256, `WriteToken`) and `GetPrincipalFromExpiredToken`. The access token is represented by its issuer, audience, claims and expiry.
- The random refresh token (32 CSPRNG bytes in Base64). It is a parameter, and lemmas that need it unique require that explicitly. The code does not guarantee it.
- BCrypt. It is a parameter; only `verify(p, hash(p, salt))` is assumed, and only by the lemmas that need it.
- `DateTime.UtcNow`. Every handler reads one `now`, and all its reads are taken to be the same instant.
- The UpdatedAt stamp that `SaveChangesAsync` puts on modified rows. Each handler writes it into the row it saves, and the stamp is included in that handler's contract.
- SQL collation: string comparisons and `Contains` are exact and case-sensitive here. `ToLowerInvariant` covers ASCII and the five Turkish capitals the slug pipeline folds; other characters are left as they are.
- Queries.SortNewestFirst: the database leaves the order of equal PublishedAt values unspecified; this model keeps table order for ties.
- Tags.GetTags: the query (SmartWare.API/Controllers/TagsController.cs:38-40) runs alone in a fresh per-request context and does not load `pt.Post`, so `pt.Post` is null on every loaded link. The mapper's `Count(pt => pt.Post.IsPublished)` (SmartWare.API/Features/Blog/BlogMappingProfile.cs:51-53) therefore cannot produce the count; for a tag with a loaded link the real endpoint fails in the mapper and answers 500. The model instead counts as if every loaded link's post were loaded.
- GetTag and GetAuthor load posts without re-filtering their links. Relationship fix-up is modelled in two ways:
  - each post listed by GetTag carries just the link to that tag;
  - each post listed by GetAuthor carries that author.
- Post views (the PostViews table and its FK), Program.cs (DI, CORS, Swagger, middleware), logging, `async`/`await`, and the Angular front end.
- DTO validation attributes. The framework applies them before a handler runs, and the handlers are modelled for every input.
- ApiPosts.CreatePost: the request binds a whole Post entity, whose Author, PostTags and PostViews navigations `Posts.Add` would insert as part of the graph, rewriting AuthorId to a newly inserted author. The model binds the Post's own columns only, so a body carrying navigation objects is not modelled.
- Data.NextKey: a new row's key is modelled as one more than the largest key in its table. SQL Server IDENTITY never reissues a key and consumes keys on failed inserts, so the database's key values differ (for example after DtoPosts.UpdatePost removes the highest link row). The handler contracts state this chosen key; the database promises only that it is fresh.
- Data.ApplicationDb.SaveChanges: does not check the column rules `IsRequired` and `HasMaxLength` (SmartWareAngular/SmartWare/SmartWare.API/Data/ApplicationDbContext.cs:47-100, 123-128, 194-213). A value too long for its column, such as a FeaturedImageUrl or AvatarUrl over 500 characters, makes the real save fail with a 500 where the model commits.
- DtoPosts.CreatePost: a TagIds entry naming a soft-deleted tag passes the foreign key, so the save succeeds. The source then re-reads the post in the same context, so the tracked link stays in `PostTags` with a null `Tag`, and `PostDetailDto.Tags` holds a null entry there. The model's Created body is built from a fresh load, which leaves that link out.
- Auth.LoginOutcome: `BCrypt.Verify` throws on a stored hash that is not a valid BCrypt string, and the controller answers 500; `verify` is a total function here, so that path is not modelled. The same holds for UserService.Authenticate, where the exception propagates to the caller.
- Auth.ToUserView: no User-to-UserDto map appears in the mapping profiles; the model assumes `_mapper.Map<UserDto>(user)` copies the user's id, names, e-mail, role and status flags member by member.
- SmartWare.API/Core/Common/BaseEntity.cs is not part of this model. Its Id, CreatedAt, UpdatedAt and IsDeleted are inferred from their use.
- UpdatePostDto, UpdateAuthorDto, RegisterDto, JwtSettings and the Tag entity class are not part of this model. Their fields are inferred from their use in the handlers and the mapping profile.
- The three `GenerateSlug` copies are textually identical. They are modelled once, as `Slug.GenerateSlug`.
- Auth.RegisterThenLogin: does not cover an older account whose e-mail equals the new username. The login lookup matches either column, and `FirstOrDefaultAsync` has no ORDER BY, so the database may return either row; the model picks the first in table order.
- UserService.ServiceRegistrationThenAuthenticate: does not cover the same collision, for the same reason.
- Auth.RefreshRotates: does not cover a new token equal to the old one or held by another user. The code does not rule either out.
