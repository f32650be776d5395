/**
 * The entities of the blog (`Models/User.cs`, `Models/Post.cs`,
 * `Models/Tag.cs`), the claims a bearer token carries, and the HTTP
 * results the controllers answer with.
 */
module Models {
  import opened Wrappers
  import opened Text

  /** A point in time, in whole seconds on the UTC clock. */
  type Instant = int

  const SecondsPerMinute: int := 60

  /** `DateTime.AddMinutes`. */
  function AddMinutes(t: Instant, minutes: int): Instant {
    t + SecondsPerMinute * minutes
  }

  /** A registered account. `password` holds the hash, never the plaintext. */
  datatype User = User(id: int, name: string, email: string, password: string, active: int)

  /** A free-form label; `Tag.Posts` is the other side of `Post.tags`. */
  datatype Tag = Tag(id: int, name: string)

  /**
   * A post. `tags` is the post's side of the Post–Tag many-to-many relation;
   * `author` is the label copied from the owner when the post was created.
   */
  datatype Post = Post(
    id: int,
    title: string,
    excerpt: string,
    context: string,
    publishedAt: Option<Instant>,
    publishStatus: bool,
    createdAt: Instant,
    updatedAt: Instant,
    author: string,
    tags: seq<Tag>,
    userId: int)

  /** One claim of an authenticated principal or of a token payload. */
  datatype Claim = Claim(claimType: string, value: string)

  /** `JwtRegisteredClaimNames.Sub`, the subject claim of section 4.1.2 of RFC 7519. */
  const SubClaimType: string := "sub"
  /** `JwtRegisteredClaimNames.Email`. */
  const EmailClaimType: string := "email"
  /** `JwtRegisteredClaimNames.NameId`. */
  const NameIdClaimType: string := "nameid"
  /** `JwtRegisteredClaimNames.UniqueName`. */
  const UniqueNameClaimType: string := "unique_name"
  /** `ClaimTypes.NameIdentifier`. */
  const NameIdentifierClaimType: string := "http://schemas.xmlsoap.org/ws/2005/05/identity/claims/nameidentifier"
  /** `ClaimTypes.Email`. */
  const EmailAddressClaimType: string := "http://schemas.xmlsoap.org/ws/2005/05/identity/claims/emailaddress"
  /** `ClaimTypes.Name`. */
  const NameClaimType: string := "http://schemas.xmlsoap.org/ws/2005/05/identity/claims/name"

  /**
   * `ClaimsPrincipal.FindFirst(type)?.Value`: the value of the first claim
   * whose type equals `claimType` under ordinal case-insensitive comparison.
   */
  function FindFirstClaim(claims: seq<Claim>, claimType: string): (r: Option<string>)
    ensures r.Some? ==> exists i :: 0 <= i < |claims| && claims[i].value == r.value
                                    && EqualsOrdinalIgnoreCase(claims[i].claimType, claimType)
                                    && forall j :: 0 <= j < i ==> !EqualsOrdinalIgnoreCase(claims[j].claimType, claimType)
    ensures r.None? <==> forall c :: c in claims ==> !EqualsOrdinalIgnoreCase(c.claimType, claimType)
  {
    if claims == [] then None
    else if EqualsOrdinalIgnoreCase(claims[0].claimType, claimType) then Some(claims[0].value)
    else
      var rest := FindFirstClaim(claims[1..], claimType);
      if rest.Some? then
        var i :| 0 <= i < |claims| - 1 && claims[1..][i].value == rest.value
                 && EqualsOrdinalIgnoreCase(claims[1..][i].claimType, claimType)
                 && forall j :: 0 <= j < i ==> !EqualsOrdinalIgnoreCase(claims[1..][j].claimType, claimType);
        assert claims[i + 1] == claims[1..][i];
        assert forall j :: 0 <= j < i + 1 ==> !EqualsOrdinalIgnoreCase(claims[j].claimType, claimType) by {
          forall j | 0 <= j < i + 1 ensures !EqualsOrdinalIgnoreCase(claims[j].claimType, claimType) {
            if j > 0 {
              assert claims[j] == claims[1..][j - 1];
            }
          }
        }
        rest
      else rest
  }

  /** An exception that escapes an action; the framework answers it with status 500. */
  datatype Fault =
    | MissingJwtKey       // InvalidOperationException("Jwt:Key not configured")
    | BadExpireMinutes    // int.Parse of Jwt:ExpireMinutes throws
    | NegativeOffset      // SQL Server rejects a negative OFFSET of the paged query

  /** The HTTP results the actions return. */
  datatype ActionResult<T> =
    | Ok(value: T)                        // 200
    | Created(value: T)                   // 201
    | BadRequest(message: string)         // 400
    | Unauthorized(body: Option<string>)  // 401, with or without a message
    | NotFound                            // 404
    | Conflict(message: string)           // 409
    | Thrown(fault: Fault)                // 500
}
