# BlogApi controllers in Dafny

A verified model of the two controllers of the BlogApi web service.

- `PostsController` covers three actions:
  - the paged listing of the caller's posts;
  - the fetch of one post, scoped to its owner;
  - post creation, including the loop that turns raw tag names into stored or new tags.
- `AuthController` covers registration and login. Both answer with a signed bearer token.

The database is a `BlogContext` object. Its `Users`, `Posts` and `Tags` tables are sequences in insertion order, and each table has a counter for its next identity value. The two actions that write are methods that modify this object, each proved to keep the store's invariant:
- `CreatePost` and the tag loop inside it;
- `Register`.

The read-only actions are functions over the table contents: the listing, the single fetch, claim parsing and login.

Parameters stand in for everything outside the controllers:
- the clock (`now`, in whole seconds);
- BCrypt (`hash`, `verify`);
- JWT signing (`sign`);
- the `Jwt:*` configuration settings.

| file | module | contents |
|---|---|---|
| `wrappers.dfy` | `Wrappers` | `Option`, `Result` |
| `text.dfy` | `Text` | `char.IsWhiteSpace`, `Trim`, `IsNullOrWhiteSpace`, `long.TryParse` / `int.Parse`, `ToString` of integers |
| `models.dfy` | `Models` | `User`, `Post`, `Tag`, claims, faults, HTTP results |
| `data.dfy` | `Data` | the store, `BlogContext`, its invariant, and lookups |
| `paging.dfy` | `Paging` | clamp, count, ceiling, newest-first order, skip/take, and the 32-bit offset |
| `tags.dfy` | `Tags` | the tag loop, and what it attaches and creates |
| `posts.dfy` | `Posts` | `GetUserIdFromClaims`, `GetPosts`, `GetPost`, `CreatePost` |
| `auth.dfy` | `Auth` | `GenerateJwt`, `Login`, `Register` |
| `sessions.dfy` | `Sessions` | that a token issued by `AuthController` identifies its user to `PostsController` |

Three behaviours of the code that a reader might not expect:

- **`ExpiresIn` unit.** `expiresIn` is `Jwt:ExpireMinutes`, a count of minutes, not seconds (`AuthController.cs:51`, `:77`). `Auth.Respond` proves the token expires at `now + 60 * expiresIn` seconds.
- **No tag deduplication within a request.** Each name is looked up only among the tags stored before the request, and names are compared exactly. A new name that occurs twice therefore inserts two rows, so `["go", "Go ", "rust", "go"]` with none stored creates four tags. `Tags.RepeatedNewNameCreatesTwo` proves this for a name sent twice.
- **Missing signing key.** `Program.cs:14` reads `Jwt:Key` at startup and encodes it, so without a key the application does not start. The check in `GenerateJwt` therefore fails a request only when the key disappears after startup, for example when the configuration is reloaded. In that case `Register` has already saved the user (`AuthController.cs:43-46`). The model captures this as `Thrown(MissingJwtKey)` with the user stored.

## Model

| member | source | states |
|---|---|---|
| `Paging.ClampPageNumber` | BlogApi/BlogApi/Controllers/PostsController.cs:28 | The page number used is at least 1. It is the requested number when that is at least 1, and 1 otherwise. |
| `Paging.ClampPageSize` | BlogApi/BlogApi/Controllers/PostsController.cs:16-29 | The page size used lies in [1, 100]. An in-range request passes through; too small gives 1 and too large gives 100. |
| `Paging.TotalPages` | BlogApi/BlogApi/Controllers/PostsController.cs:36 | The integer ceiling of count / size: `(pages-1)*size < count <= pages*size`. The page count is 0 exactly when the count is 0. |
| `Paging.OwnedBy` | BlogApi/BlogApi/Controllers/PostsController.cs:31-33 | The filter keeps at most as many posts as are stored. |
| `Paging.OwnedByMembers` | BlogApi/BlogApi/Controllers/PostsController.cs:31-33 | The filtered posts are exactly the stored posts whose owner is the caller. |
| `Paging.OwnedPositionsSnoc` | BlogApi/BlogApi/Controllers/PostsController.cs:31-33 | Appending a post adds its position to the caller's positions exactly when the post is the caller's. |
| `Paging.OwnedByCount` | BlogApi/BlogApi/Controllers/PostsController.cs:35 | The count equals the number of table positions holding a post of the caller. |
| `Paging.OwnedByEmpty` | BlogApi/BlogApi/Controllers/PostsController.cs:31-35 | The caller has no posts exactly when no stored post is theirs. |
| `Paging.InsertByDate` | BlogApi/BlogApi/Controllers/PostsController.cs:41 | An insertion adds exactly the one post to the sequence's multiset. |
| `Paging.InsertByDateBounded` | BlogApi/BlogApi/Controllers/PostsController.cs:41 | Inserting a post no newer than a bound among such posts yields only such posts. |
| `Paging.InsertByDateOrdered` | BlogApi/BlogApi/Controllers/PostsController.cs:41 | Inserting into a newest-first sequence keeps it newest first. |
| `Paging.NewestFirst` | BlogApi/BlogApi/Controllers/PostsController.cs:41 | The ordering is a permutation of its input (same multiset). |
| `Paging.NewestFirstSorts` | BlogApi/BlogApi/Controllers/PostsController.cs:41 | The ordering is newest first, keeps the length, and keeps exactly the same posts. |
| `Paging.Skip` | BlogApi/BlogApi/Controllers/PostsController.cs:42 | For a non-negative count (the database refuses a negative `OFFSET`), the result is the suffix after `n`, and empty when `n` reaches the end. |
| `Paging.Take` | BlogApi/BlogApi/Controllers/PostsController.cs:43 | The result is a prefix whose length is `n` clipped to [0, length]. |
| `Paging.ListPosts` | BlogApi/BlogApi/Controllers/PostsController.cs:28-53 | The reported page number is at least 1 and the page size lies in [1, 100]. |
| `Paging.ListPostsRequest` | BlogApi/BlogApi/Controllers/PostsController.cs:28-29 | Number ≥ 1 and size in [1, 100], with in-range values unchanged. |
| `Paging.ListPostsCount` | BlogApi/BlogApi/Controllers/PostsController.cs:31-35 | The total count is the number of the caller's stored posts, and it is 0 exactly when the caller has none. |
| `Paging.PaginatePageCount` | BlogApi/BlogApi/Controllers/PostsController.cs:36 | The page count is the fewest pages of the page size that hold the count: `(pages-1)*size < count <= pages*size`, and 0 exactly for no items. |
| `Paging.ListPostsPageCount` | BlogApi/BlogApi/Controllers/PostsController.cs:35-36 | The listing's total pages is the ceiling of its total count over its page size. |
| `Paging.PaginateSlice` | BlogApi/BlogApi/Controllers/PostsController.cs:42-43 | Skip then take is the slice `[offset, min(offset+size, length))`, or empty when the offset is at or past the end. |
| `Paging.SliceKeepsOrder` | BlogApi/BlogApi/Controllers/PostsController.cs:41-43 | A slice of a newest-first sequence is newest first. |
| `Paging.PastLastPage` | BlogApi/BlogApi/Controllers/PostsController.cs:36-42 | The offset `(number-1)*size` is at or past the count exactly when the page number exceeds the page count. |
| `Paging.PaginatePastLastPage` | BlogApi/BlogApi/Controllers/PostsController.cs:36-43 | A page is empty exactly when its number exceeds the page count. |
| `Paging.PageOfSorted` | BlogApi/BlogApi/Controllers/PostsController.cs:41-43 | A page of a newest-first sequence holds only members and at most `size` of them, in newest-first order. |
| `Paging.ListPostsItemsOwned` | BlogApi/BlogApi/Controllers/PostsController.cs:31-53 | Every item is a stored post of the caller. There are at most `pageSize` items, newest first. |
| `Paging.ListPostsItemsSlice` | BlogApi/BlogApi/Controllers/PostsController.cs:31-53 | The items are exactly the slice of the caller's newest-first posts that starts at `(pageNumber-1)*pageSize`, cut at `pageSize` items or at the end. |
| `Paging.ListPostsPastLastPage` | BlogApi/BlogApi/Controllers/PostsController.cs:36-53 | The items are empty exactly when `pageNumber > totalPages`; the totals are reported anyway. |
| `Paging.WrapInt` | BlogApi/BlogApi/Controllers/PostsController.cs:42 | The result is in the 32-bit range, equals `n` when `n` fits, and is congruent to `n` modulo 2^32. |
| `Paging.AsWrittenAgreesWithoutOverflow` | BlogApi/BlogApi/Controllers/PostsController.cs:42 | While the offset fits in 32 bits, the listing with the as-written offset equals the model's listing. |
| `Paging.ListPostsAsWritten` | BlogApi/BlogApi/Controllers/PostsController.cs:42 | With the offset computed as an unchecked 32-bit product, the query fails with the database's refusal exactly when the wrapped offset is negative. |
| `Paging.OffsetWrapsToFirstPage` | BlogApi/BlogApi/Controllers/PostsController.cs:42 | Page 67108865 of size 64: the as-written offset wraps to 0 and the caller's only post comes back. The corrected listing is empty with 1 total page. |
| `Paging.OffsetWrapsNegative` | BlogApi/BlogApi/Controllers/PostsController.cs:42 | Page 21474838 of size 100: the as-written offset wraps to -2147483596 and the query fails (500), where the corrected listing is an empty page. |
| `Text.TrimStartWhere` | BlogApi/BlogApi/Controllers/PostsController.cs:108 | The result is a suffix that does not start with a white character, and only white characters were dropped. |
| `Text.TrimEndWhere` | BlogApi/BlogApi/Controllers/PostsController.cs:108 | The result is a prefix that does not end with a white character, and only white characters were dropped. |
| `Text.TrimWhere` | BlogApi/BlogApi/Controllers/PostsController.cs:108 | The trim is the infix between the leading and trailing white runs, and it neither starts nor ends with white space. `Text.Trim` is this with `char.IsWhiteSpace`. |
| `Text.TrimEmptyIffAllWhiteSpace` | BlogApi/BlogApi/Controllers/PostsController.cs:108-109 | `Trim(s)` is empty exactly when `s` is all white space. |
| `Text.TrimWhereNoop` | BlogApi/BlogApi/Controllers/PostsController.cs:108 | A string with no white character at either end is its own trim. |
| `Text.TrimmedBlankIffEmpty` | BlogApi/BlogApi/Controllers/PostsController.cs:108-109 | A trimmed string is null-or-white-space exactly when it is empty. |
| `Text.DecimalDigits` | BlogApi/BlogApi/Controllers/AuthController.cs:95 | `Id.ToString()` spells the number with at least one decimal digit and no leading zero. |
| `Text.TryParseInteger` | BlogApi/BlogApi/Controllers/PostsController.cs:133 | A parsed value lies in the requested range. |
| `Text.TryParseLong` | BlogApi/BlogApi/Controllers/PostsController.cs:133 | `long.TryParse` yields only 64-bit values. |
| `Text.ParseInt` | BlogApi/BlogApi/Controllers/AuthController.cs:91 | `int.Parse` yields only 32-bit values. |
| `Text.FormatIntegerSpelling` | BlogApi/BlogApi/Controllers/AuthController.cs:95 | `Id.ToString()` writes a minus sign exactly for negatives, then the shortest decimal digits whose value is the magnitude. |
| `Text.DigitsRoundTrip` | BlogApi/BlogApi/Controllers/AuthController.cs:95 | Reading back the decimal spelling of `n` gives `n`. |
| `Text.FormatParseRoundTrip` | BlogApi/BlogApi/Controllers/PostsController.cs:133 | Parsing what `ToString` writes gives the number back, for any number in range. |
| `Text.NoDigitNoNumber` | BlogApi/BlogApi/Controllers/PostsController.cs:133 | A string without a decimal digit never parses. |
| `Models.FindFirstClaim` | BlogApi/BlogApi/Controllers/PostsController.cs:131-132 | Claim types are compared ordinally, ignoring case. The result is the value of the first claim whose type matches: no earlier claim's type matches. It is absent exactly when no claim's type matches. |
| `Data.FindUserById` | BlogApi/BlogApi/Controllers/PostsController.cs:87 | A found user is stored with that id. Nothing is found exactly when no stored user has the id. |
| `Data.FindUserByEmail` | BlogApi/BlogApi/Controllers/AuthController.cs:32 | A found user is stored with that exact email. Nothing is found exactly when no stored user has it. |
| `Data.AppendTagsKeepsIds` | BlogApi/BlogApi/Controllers/PostsController.cs:116 | Tags numbered on from the identity counter keep the tag ids distinct and below the advanced counter. |
| `Data.AppendPostKeepsConsistent` | BlogApi/BlogApi/Controllers/PostsController.cs:122-123 | Storing the new tags and a post keeps the invariant: distinct ids, owners stored, tag links stored. This holds when the post is owned by a stored user and links only stored or new tags. |
| `Data.AppendUserKeepsConsistent` | BlogApi/BlogApi/Controllers/AuthController.cs:32-44 | Storing a user whose email is not yet stored keeps the invariant, unique emails included. |
| `Data.BlogContext.constructor` | BlogApi/BlogApi/Data/BlogDbContext.cs:7-23 | An empty store is consistent, with its counters at 1. |
| `Tags.TagName` | BlogApi/BlogApi/Controllers/PostsController.cs:108-109 | The trimmed, non-empty name is returned. Nothing is returned exactly when the entry is null or white space. |
| `Tags.FindTagByName` | BlogApi/BlogApi/Controllers/PostsController.cs:111 | A found tag is stored under exactly that name. Nothing is found exactly when no stored tag has it. |
| `Tags.ReconcileOne` | BlogApi/BlogApi/Controllers/PostsController.cs:108-118 | One turn of the loop does what `ReconcileStep` specifies for the entry: skip, reuse a stored tag, or create a tag numbered after the ones created so far. |
| `Tags.ReconcileTags` | BlogApi/BlogApi/Controllers/PostsController.cs:104-119 | The loop attaches and creates exactly what `Reconcile` specifies. |
| `Tags.ReconcileAttached` | BlogApi/BlogApi/Controllers/PostsController.cs:106-118 | One tag is attached per non-blank entry, named by the trimmed entry, in input order. A stored tag with exactly that name is the one attached. |
| `Tags.ReconcileLengths` | BlogApi/BlogApi/Controllers/PostsController.cs:106-118 | One tag is attached per non-blank entry, and one is created per entry whose name is not stored. |
| `Tags.ReconcileAttachedCreated` | BlogApi/BlogApi/Controllers/PostsController.cs:113-117 | For a name no stored tag has, the tag attached is the created one whose index counts the earlier unstored names; so it is one of the created tags. |
| `Tags.ReconcileCreated` | BlogApi/BlogApi/Controllers/PostsController.cs:113-118 | One tag is created per entry whose name is not stored, repeats included, in order. Their ids run consecutively from the counter. |
| `Tags.AttachedAreStoredOrCreated` | BlogApi/BlogApi/Controllers/PostsController.cs:111-117 | Every attached tag is stored or created. |
| `Tags.CreatedIdentities` | BlogApi/BlogApi/Controllers/PostsController.cs:115-116 | Created tags carry the ids `firstId`, `firstId + 1`, … |
| `Tags.StoredNameReused` | BlogApi/BlogApi/Controllers/PostsController.cs:111-112 | An entry whose trimmed name is stored attaches that tag and creates nothing. |
| `Tags.RepeatedNewNameCreatesTwo` | BlogApi/BlogApi/Controllers/PostsController.cs:111-117 | A new name sent twice creates two tags of that name, with two ids. |
| `Tags.ReconcileSnoc` | BlogApi/BlogApi/Controllers/PostsController.cs:106 | One more entry is one more turn of the loop. |
| `Posts.ResolveUserId` | BlogApi/BlogApi/Controllers/PostsController.cs:129-134 | NameIdentifier takes precedence, and `sub` is used only when NameIdentifier is absent. The result is a 64-bit value, and one exists only if a claim of either type, ignoring case, exists. |
| `Posts.UpperCaseSubIdentifies` | BlogApi/BlogApi/Controllers/PostsController.cs:131-134 | A lone `SUB` claim holding a 64-bit id resolves to that id, as `sub` would. |
| `Posts.UnparsableNameIdentifierNotRescued` | BlogApi/BlogApi/Controllers/PostsController.cs:131-134 | A NameIdentifier value with no digit identifies nobody, even when a valid `sub` is present. |
| `Posts.GetPosts` | BlogApi/BlogApi/Controllers/PostsController.cs:23-55 | The answer is 200 or 401, and 401 exactly when no caller id resolves. A 200 answer is the caller's listing for the requested page, with page 1 and size 10 when the query omits them, and lists only the caller's posts. |
| `Posts.FindOwnedPost` | BlogApi/BlogApi/Controllers/PostsController.cs:66-69 | A found post has both the id and the caller as owner. Nothing is found exactly when no stored post has both. |
| `Posts.GetPost` | BlogApi/BlogApi/Controllers/PostsController.cs:61-73 | 401 without a caller; otherwise 200 or 404. 200 means the post has the id and is the caller's. 404 means exactly that no post has both. |
| `Posts.ForeignPostLooksMissing` | BlogApi/BlogApi/Controllers/PostsController.cs:66-71 | Asking for another user's post gives the same 404 as asking for an id that does not exist. |
| `Posts.AuthorLabel` | BlogApi/BlogApi/Controllers/PostsController.cs:101 | The user's name unless it is white space only, in which case the email. |
| `Posts.NewPost` | BlogApi/BlogApi/Controllers/PostsController.cs:90-102 | The new post has the given id, the caller as owner, the request's title, publication date and status, "" for a missing excerpt or content, both timestamps `now`, and as author the user's name, or the email when the name is blank. |
| `Posts.RawTags` | BlogApi/BlogApi/Controllers/PostsController.cs:104 | A null tag list gives no entries. A present list gives its own entries. |
| `Posts.StorePost` | BlogApi/BlogApi/Controllers/PostsController.cs:90-123 | The post gets the next id, the request's fields with "" for a missing excerpt or content, both timestamps `now`, the author label, the caller as owner and the reconciled tags. The created tags and the post are appended, the users are untouched, and the invariant is kept. |
| `Posts.CreatePost` | BlogApi/BlogApi/Controllers/PostsController.cs:79-126 | No caller gives 401, a null request or blank title gives 400, and a caller with no user row gives 401; each leaves the store unchanged. 201 comes exactly otherwise, with the post stored as `StorePost` states. The invariant is kept. |
| `Auth.ExpireMinutes` | BlogApi/BlogApi/Controllers/AuthController.cs:51 | An absent setting gives 60. A present one gives its `int.Parse`. |
| `Auth.DefaultSpelling` | BlogApi/BlogApi/Controllers/AuthController.cs:91 | The default text "60" parses to 60. |
| `Auth.TokenClaims` | BlogApi/BlogApi/Controllers/AuthController.cs:93-98 | Exactly three claims: `sub` is the id in decimal, then email and name. There is no NameIdentifier claim. |
| `Auth.TokenPayload` | BlogApi/BlogApi/Controllers/AuthController.cs:86-109 | A missing key fails, and an unparsable expiry fails next. Otherwise the payload has the configured issuer, audience and claims, and expires `60 * minutes` seconds after `now`. |
| `Auth.GenerateJwt` | BlogApi/BlogApi/Controllers/AuthController.cs:86-112 | Fails exactly when the payload does, with the same fault. Otherwise the token is the payload signed with the key. |
| `Auth.Respond` | BlogApi/BlogApi/Controllers/AuthController.cs:46-55 | The answer carries the token, the user's id, email and name, and `expiresIn` in minutes. The token expires at `now + 60 * expiresIn`. |
| `Auth.MissingCredentials` | BlogApi/BlogApi/Controllers/AuthController.cs:29 | The credentials are missing (line 29 and line 63 alike) exactly when the email or the password is null or trims to nothing. |
| `Auth.Login` | BlogApi/BlogApi/Controllers/AuthController.cs:61-84 | 400 exactly for missing credentials. Every 401 is "Invalid credentials.". 200 or 500 only for a stored email whose password verifies, and 200 carries that user's id. |
| `Auth.UnknownEmailLikeWrongPassword` | BlogApi/BlogApi/Controllers/AuthController.cs:66-70 | An unknown email and a wrong password get the identical 401. |
| `Auth.FindUniqueEmail` | BlogApi/BlogApi/Controllers/AuthController.cs:66 | With unique emails, the lookup by a stored user's email finds that user. |
| `Auth.LoginSucceeds` | BlogApi/BlogApi/Controllers/AuthController.cs:66-83 | A stored user whose password verifies gets 200, with their own id, email and name and a token over their claims. |
| `Auth.NewUser` | BlogApi/BlogApi/Controllers/AuthController.cs:35-41 | The new row has the email, the name or "" when absent, `Active` = 1 and the hashed password. |
| `Auth.Answer` | BlogApi/BlogApi/Controllers/AuthController.cs:46-57 | A token gives 201 with the response. A fault gives 500. |
| `Auth.StoreUser` | BlogApi/BlogApi/Controllers/AuthController.cs:43-44 | Appends the user under the next id and leaves posts and tags alone. The invariant is kept. |
| `Auth.Register` | BlogApi/BlogApi/Controllers/AuthController.cs:27-58 | Missing credentials give 400 and a stored email gives 409, both leaving the store unchanged. Otherwise exactly one user is appended, then 201 or 500. Unique emails are kept. |
| `Auth.RegisterThenLogin` | BlogApi/BlogApi/Controllers/AuthController.cs:27-84 | Once the hash verifies its plaintext, a user just registered logs in with the same credentials and gets the registration's answer. |
| `Auth.RetryAfterFaultConflicts` | BlogApi/BlogApi/Controllers/AuthController.cs:32-46 | After a registration that stored the user, the same email is found, so a retry gets 409. |
| `Sessions.MapInboundClaim` | BlogApi/BlogApi/Program.cs:16-26 | `sub` and `nameid` become NameIdentifier, `email` the email URI and `unique_name` the name URI, with the value kept. Every other claim is unchanged. |
| `Sessions.MapInboundClaims` | BlogApi/BlogApi/Program.cs:16-26 | The mapping is applied claim by claim. |
| `Sessions.NameIdPrecedesSub` | BlogApi/BlogApi/Controllers/PostsController.cs:131-134 | With a mapped `nameid` claim ahead of a `sub` claim, the caller is the `nameid` value. |
| `Sessions.TokenIdentifiesUser` | BlogApi/BlogApi/Controllers/AuthController.cs:95 | The claims of a token for a user with a 64-bit id resolve to that id, mapped or not (`PostsController.cs:129-134`). |
| `Sessions.TokenListsOwnPosts` | BlogApi/BlogApi/Controllers/PostsController.cs:23-55 | Listing with a user's token lists that user's posts. |

## Left out

- `Comment`, `Role`, the User–Role relation and the `Include(p => p.Comments)` loads are not part of this model. No logic of the controllers consults them.
- `Post.User`, the navigation property, is left out: `userId` names the owner.
- Concurrency is left out: async/await, interleaved requests, and the check-then-insert races on emails and tag names. Every action is one sequential step.
- `SaveChangesAsync` is modelled as succeeding. Database failures and rollbacks are left out.
- Models.FindFirstClaim: folds case only for the ASCII letters. .NET's ordinal ignore-case comparison also upper-cases the other letters, which is not modelled.
- Sessions.MapInboundClaim: models four entries of the handler's default inbound table: `sub`, `nameid`, `email` and `unique_name`. The table's other entries (`role`, `given_name`, `family_name` and the rest) rename further claim types; none of them leads to NameIdentifier or `sub`, so they do not change which user a request resolves to.
- Posts.StorePost: stores the tags the loop attached as the post's list, in input order and with any repeats. The `post_tags` join table keeps one link per post and tag, and `Include(p => p.Tags)` reads the links back in no defined order. That order, and the collapse of repeated links, are not modelled.
- Tags.FindTagByName: returns the first stored tag of that name. Without an `OrderBy`, the database may return any tag of that name when several exist.
- Names and emails are compared exactly. The database's collation (SQL Server's default is case-insensitive and ignores trailing spaces) is left out.
- BCrypt hashing and verification and HMAC-SHA256 signing are opaque function parameters.
  - "never the plaintext" is stated only as `password == hash(plaintext)`.
  - Registration followed by login assumes that `verify(p, hash(p))` holds.
- Signing rejects keys shorter than 256 bits with an exception; that case is left out.
- The JWT bearer handler's checks of signature, issuer, audience and lifetime are left out. Requests reach the actions with claims already accepted.
- Time is whole seconds. `DateTime` ticks, the range overflow of `AddMinutes`, and the two separate `DateTime.UtcNow` reads behind `CreatedAt` and `UpdatedAt` (one `now` here) are left out.
- Text.TryParseInteger: models the invariant-culture `NumberStyles.Integer` grammar. Culture-specific signs and trailing NUL characters, which .NET also accepts, are not modelled.
- `CountAsync` returns a 32-bit count; counts and ids beyond the 32- and 64-bit ranges are not bounded.
- `Paging.TotalPages` computes the ceiling in integer arithmetic instead of `double`. The two agree for every 32-bit count.
- `Paging.NewestFirst` breaks ties between equal `CreatedAt` values by stored order. SQL Server leaves the order of such rows open, so which of two posts created in the same instant lands on which page is not modelled.
- Posts.GetPosts: takes the page number and size as unbounded integers, with `None` for an omitted query parameter. A value that is not a 32-bit integer fails model binding with 400, which is not modelled.
- `Posts.GetPosts` lists with the corrected offset (`Paging.ListPosts`); the 32-bit offset is `Paging.ListPostsAsWritten` (see Findings).
- A `null` request body is modelled as `None`. A `null` email, password or title inside a body is modelled as `None` despite the non-null defaults. Model-binding validation is left out.
- Login leaves the store unchanged by construction: it is a function of the users table.

## Findings

| source | as written | input that shows it | evidently intended | confidence | as-written member | corrected member |
|---|---|---|---|---|---|---|
| BlogApi/BlogApi/Controllers/PostsController.cs:42 | `(pageNumber - 1) * pageSize` is an unchecked 32-bit product, so the offset wraps. A wrap to a non-negative value skips the wrong number of posts; a wrap to a negative value is sent as a negative `OFFSET`, which SQL Server rejects, and the request fails with 500. | `pageNumber = 67108865`, `pageSize = 64`: the offset 2^32 wraps to 0, and a caller with one post gets it back on a page far past the last one. `pageNumber = 21474838`, `pageSize = 100`: the offset wraps to -2147483596 and the request fails. | Pages past the last are empty; the offset is computed without overflow (checked or 64-bit). | not executed | `Paging.ListPostsAsWritten`, `Paging.OffsetWrapsToFirstPage`, `Paging.OffsetWrapsNegative` | `Paging.ListPosts`, `Paging.ListPostsItemsSlice`, `Paging.ListPostsPastLastPage` |
