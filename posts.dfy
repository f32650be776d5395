/**
 * `PostsController`: the caller's identity from token claims, the paged
 * listing, the ownership-scoped fetch, and post creation with its tags.
 */
module Posts {
  import opened Wrappers
  import opened Text
  import opened Models
  import opened Data
  import opened Paging
  import opened Tags

  /**
   * `GetUserIdFromClaims`: the value of the first NameIdentifier claim, or,
   * only when there is none, of the first `sub` claim (claim types compared
   * ignoring case), parsed as a 64-bit
   * integer; `None` when neither claim exists or the value does not parse.
   */
  function ResolveUserId(claims: seq<Claim>): (r: Option<int>)
    ensures r.Some? ==> IsLong(r.value)
    ensures FindFirstClaim(claims, NameIdentifierClaimType).Some? ==>
      r == TryParseLong(FindFirstClaim(claims, NameIdentifierClaimType))
    ensures FindFirstClaim(claims, NameIdentifierClaimType).None? ==>
      r == TryParseLong(FindFirstClaim(claims, SubClaimType))
    ensures r.Some? ==> exists c :: c in claims && (EqualsOrdinalIgnoreCase(c.claimType, NameIdentifierClaimType)
                                                || EqualsOrdinalIgnoreCase(c.claimType, SubClaimType))
  {
    var nameIdentifier := FindFirstClaim(claims, NameIdentifierClaimType);
    var sub := if nameIdentifier.Some? then nameIdentifier else FindFirstClaim(claims, SubClaimType);
    TryParseLong(sub)
  }

  /**
   * Claim types are compared ignoring case: a lone `SUB` claim identifies
   * the caller just as `sub` would.
   */
  lemma UpperCaseSubIdentifies(id: int)
    requires IsLong(id)
    ensures ResolveUserId([Claim("SUB", FormatInteger(id))]) == Some(id)
  {
    var claims := [Claim("SUB", FormatInteger(id))];
    assert EqualsOrdinalIgnoreCase(claims[0].claimType, SubClaimType);
    FormatParseRoundTrip(id, LongMin, LongMax);
  }

  /**
   * A NameIdentifier claim is decisive even when its value is not a number:
   * a `sub` claim is then not consulted, and the caller is not identified.
   */
  lemma UnparsableNameIdentifierNotRescued(claims: seq<Claim>, value: string)
    requires FindFirstClaim(claims, NameIdentifierClaimType) == Some(value)
    requires forall i :: 0 <= i < |value| ==> !IsDigit(value[i])
    ensures ResolveUserId(claims) == None
  {
    NoDigitNoNumber(value, LongMin, LongMax);
  }

  /** The page `GetPosts` lists when the query names none. */
  const DefaultPageNumber: int := 1

  /** The page size `GetPosts` uses when the query names none. */
  const DefaultPageSize: int := 10

  /**
   * `GetPosts`: 401 without an identified caller, else 200 with the caller's
   * page; a query parameter left out takes its default.
   */
  function GetPosts(posts: seq<Post>, claims: seq<Claim>, pageNumber: Option<int>, pageSize: Option<int>)
    : (r: ActionResult<PagedResult<Post>>)
    ensures r.Ok? || r.Unauthorized?
    ensures r.Unauthorized? <==> ResolveUserId(claims).None?
    ensures r.Ok? ==> r.value == ListPosts(posts, ResolveUserId(claims).value,
                                           pageNumber.GetOr(DefaultPageNumber), pageSize.GetOr(DefaultPageSize))
    ensures r.Ok? ==> forall p :: p in r.value.items ==> p.userId == ResolveUserId(claims).value
    ensures r.Ok? && pageNumber.None? && pageSize.None? ==> r.value.pageNumber == 1 && r.value.pageSize == 10
  {
    var userId := ResolveUserId(claims);
    if userId.None? then Unauthorized(None)
    else
      var number, size := pageNumber.GetOr(DefaultPageNumber), pageSize.GetOr(DefaultPageSize);
      ListPostsItemsOwned(posts, userId.value, number, size);
      ListPostsRequest(posts, userId.value, number, size);
      Ok(ListPosts(posts, userId.value, number, size))
  }

  /** `FirstOrDefaultAsync(p => p.Id == id && p.UserId == userId)`. */
  function FindOwnedPost(posts: seq<Post>, id: int, userId: int): (r: Option<Post>)
    ensures r.Some? ==> r.value in posts && r.value.id == id && r.value.userId == userId
    ensures r.None? <==> forall p :: p in posts ==> !(p.id == id && p.userId == userId)
  {
    if posts == [] then None
    else if posts[0].id == id && posts[0].userId == userId then Some(posts[0])
    else FindOwnedPost(posts[1..], id, userId)
  }

  /**
   * `GetPost`: 401 without an identified caller; 200 with the post when one
   * has both the id and the caller as owner; 404 otherwise.
   */
  function GetPost(posts: seq<Post>, claims: seq<Claim>, id: int): (r: ActionResult<Post>)
    ensures ResolveUserId(claims).None? ==> r == Unauthorized(None)
    ensures ResolveUserId(claims).Some? ==> r.Ok? || r.NotFound?
    ensures r.Ok? ==> r.value in posts && r.value.id == id && r.value.userId == ResolveUserId(claims).value
    ensures r.NotFound? <==>
              (ResolveUserId(claims).Some?
               && forall p :: p in posts ==> !(p.id == id && p.userId == ResolveUserId(claims).value))
  {
    var userId := ResolveUserId(claims);
    if userId.None? then Unauthorized(None)
    else
      match FindOwnedPost(posts, id, userId.value)
      case None => NotFound
      case Some(post) => Ok(post)
  }

  /**
   * Another user's post cannot be told apart from a missing one: asking for
   * it gives exactly the answer for an id that no post has.
   */
  lemma ForeignPostLooksMissing(posts: seq<Post>, claims: seq<Claim>, foreignId: int, missingId: int)
    requires ResolveUserId(claims).Some?
    requires forall p :: p in posts && p.id == foreignId ==> p.userId != ResolveUserId(claims).value
    requires forall p :: p in posts ==> p.id != missingId
    ensures GetPost(posts, claims, foreignId) == GetPost(posts, claims, missingId) == NotFound
  {
  }

  /** The author label: the user's name, or the email when the name is blank. */
  function AuthorLabel(user: User): (r: string)
    ensures !AllWhiteSpace(user.name) ==> r == user.name
    ensures AllWhiteSpace(user.name) ==> r == user.email
  {
    if IsNullOrWhiteSpace(Some(user.name)) then user.email else user.name
  }

  /** `CreatePostRequest`; the title may arrive as null despite its declared default. */
  datatype CreatePostRequest = CreatePostRequest(
    title: Option<string>,
    excerpt: Option<string>,
    context: Option<string>,
    publishedAt: Option<Instant>,
    publishStatus: bool,
    tags: Option<seq<Option<string>>>)

  const TitleRequired: string := "Title is required."

  /** The entries the tag loop visits: none when the list is null or empty. */
  function RawTags(request: CreatePostRequest): (r: seq<Option<string>>)
    ensures request.tags.Some? ==> r == request.tags.value
    ensures request.tags.None? ==> r == []
  {
    if request.tags.Some? && |request.tags.value| > 0 then request.tags.value else []
  }

  /**
   * The post `CreatePost` builds: the author label, "" for a missing excerpt
   * or content, both timestamps `now`, owned by the user.
   */
  function NewPost(id: int, request: CreatePostRequest, user: User, now: Instant, tags: seq<Tag>): (p: Post)
    requires request.title.Some?
    ensures p.id == id && p.userId == user.id && p.tags == tags
    ensures p.title == request.title.value
    ensures (request.excerpt.Some? ==> p.excerpt == request.excerpt.value) && (request.excerpt.None? ==> p.excerpt == "")
    ensures (request.context.Some? ==> p.context == request.context.value) && (request.context.None? ==> p.context == "")
    ensures p.publishedAt == request.publishedAt && p.publishStatus == request.publishStatus
    ensures p.createdAt == now && p.updatedAt == now
    ensures p.author == if AllWhiteSpace(user.name) then user.email else user.name
  {
    Post(id, request.title.value, request.excerpt.GetOr(""), request.context.GetOr(""),
         request.publishedAt, request.publishStatus, now, now, AuthorLabel(user), tags, user.id)
  }

  /**
   * The part of `CreatePost` past the checks: runs the tag loop against the
   * tags stored before the request, then stores the new tags and the post
   * in one save.
   */
  method StorePost(db: BlogContext, request: CreatePostRequest, user: User, now: Instant) returns (post: Post)
    requires db.Valid() && request.title.Some? && FindUserById(db.users, user.id).Some?
    modifies db
    ensures db.Valid()
    ensures
      var tags := Reconcile(old(db.tags), RawTags(request), old(db.nextTagId));
      && post == NewPost(old(db.nextPostId), request, user, now, tags.attached)
      && db.posts == old(db.posts) + [post]
      && db.tags == old(db.tags) + tags.created
      && db.users == old(db.users)
      && db.nextPostId == old(db.nextPostId) + 1
      && db.nextTagId == old(db.nextTagId) + |tags.created|
      && db.nextUserId == old(db.nextUserId)
  {
    var attached, created := ReconcileTags(db.tags, RawTags(request), db.nextTagId);
    post := NewPost(db.nextPostId, request, user, now, attached);
    CreatedIdentities(db.tags, RawTags(request), db.nextTagId);
    AttachedAreStoredOrCreated(db.tags, RawTags(request), db.nextTagId);
    AppendPostKeepsConsistent(db.users, db.posts, db.tags, db.nextUserId, db.nextPostId, db.nextTagId, created, post);
    // SaveChangesAsync: the new tags and the post are stored together.
    db.tags := db.tags + created;
    db.nextTagId := db.nextTagId + |created|;
    db.posts := db.posts + [post];
    db.nextPostId := db.nextPostId + 1;
  }

  /**
   * `CreatePost`: 401 without an identified caller, 400 for a null request
   * or a blank title, 401 when no user has the caller's id; each of these
   * leaves the store as it was. Otherwise the post is stored and answered
   * with 201.
   */
  method CreatePost(db: BlogContext, claims: seq<Claim>, request: Option<CreatePostRequest>, now: Instant)
    returns (r: ActionResult<Post>)
    requires db.Valid()
    modifies db
    ensures db.Valid()
    ensures ResolveUserId(claims).None? ==> r == Unauthorized(None) && unchanged(db)
    ensures (ResolveUserId(claims).Some? && (request.None? || IsNullOrWhiteSpace(request.value.title))) ==>
      r == BadRequest(TitleRequired) && unchanged(db)
    ensures (ResolveUserId(claims).Some? && request.Some? && !IsNullOrWhiteSpace(request.value.title)
             && FindUserById(old(db.users), ResolveUserId(claims).value).None?) ==>
      r == Unauthorized(None) && unchanged(db)
    ensures r.Created? <==>
              (ResolveUserId(claims).Some? && request.Some? && !IsNullOrWhiteSpace(request.value.title)
               && FindUserById(old(db.users), ResolveUserId(claims).value).Some?)
    ensures r.Created? ==>
      var user := FindUserById(old(db.users), ResolveUserId(claims).value).value;
      var tags := Reconcile(old(db.tags), RawTags(request.value), old(db.nextTagId));
      && r.value == NewPost(old(db.nextPostId), request.value, user, now, tags.attached)
      && r.value.userId == ResolveUserId(claims).value
      && db.posts == old(db.posts) + [r.value]
      && db.tags == old(db.tags) + tags.created
      && db.users == old(db.users)
      && db.nextPostId == old(db.nextPostId) + 1
      && db.nextTagId == old(db.nextTagId) + |tags.created|
      && db.nextUserId == old(db.nextUserId)
  {
    var userId := ResolveUserId(claims);
    if userId.None? {
      return Unauthorized(None);
    }
    if request.None? || IsNullOrWhiteSpace(request.value.title) {
      return BadRequest(TitleRequired);
    }
    var user := FindUserById(db.users, userId.value);
    if user.None? {
      return Unauthorized(None);
    }
    var post := StorePost(db, request.value, user.value, now);
    r := Created(post);
  }
}
