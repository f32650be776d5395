/**
 * The bearer token as the link between `AuthController` and
 * `PostsController`: the claims a token carries, after the JWT bearer
 * handler's default inbound claim mapping, identify the user the token was
 * issued to.
 */
module Sessions {
  import opened Wrappers
  import opened Text
  import opened Models
  import opened Paging
  import opened Posts
  import opened Auth

  /**
   * The default inbound mapping of the JWT bearer handler, on the entries
   * that concern the claims `GenerateJwt` writes or that lead to
   * NameIdentifier: `sub` and `nameid` become NameIdentifier, `email` the
   * email URI and `unique_name` the name URI; other claim types are kept.
   * The handler's table is keyed case-sensitively.
   */
  function MapInboundClaim(c: Claim): (r: Claim)
    ensures r.value == c.value
    ensures c.claimType in {SubClaimType, NameIdClaimType} ==> r.claimType == NameIdentifierClaimType
    ensures c.claimType == EmailClaimType ==> r.claimType == EmailAddressClaimType
    ensures c.claimType == UniqueNameClaimType ==> r.claimType == NameClaimType
    ensures c.claimType !in {SubClaimType, NameIdClaimType, EmailClaimType, UniqueNameClaimType} ==> r == c
  {
    if c.claimType == SubClaimType || c.claimType == NameIdClaimType then Claim(NameIdentifierClaimType, c.value)
    else if c.claimType == EmailClaimType then Claim(EmailAddressClaimType, c.value)
    else if c.claimType == UniqueNameClaimType then Claim(NameClaimType, c.value)
    else c
  }

  /** The mapping applied claim by claim. */
  function MapInboundClaims(claims: seq<Claim>): (r: seq<Claim>)
    ensures |r| == |claims|
    ensures forall i :: 0 <= i < |claims| ==> r[i] == MapInboundClaim(claims[i])
  {
    if claims == [] then [] else [MapInboundClaim(claims[0])] + MapInboundClaims(claims[1..])
  }

  /**
   * A token issued to a user with a 64-bit id identifies that user, whether
   * the subject claim arrives as `sub` or mapped to NameIdentifier.
   */
  lemma TokenIdentifiesUser(user: User)
    requires IsLong(user.id)
    ensures ResolveUserId(TokenClaims(user)) == Some(user.id)
    ensures ResolveUserId(MapInboundClaims(TokenClaims(user))) == Some(user.id)
  {
    FormatParseRoundTrip(user.id, LongMin, LongMax);
    var mapped := MapInboundClaims(TokenClaims(user));
    assert mapped[0] == Claim(NameIdentifierClaimType, FormatInteger(user.id));
  }

  /**
   * A `nameid` claim ahead of a `sub` claim decides the caller: both become
   * NameIdentifier, and the first one is read.
   */
  lemma NameIdPrecedesSub(id: int, other: int)
    requires IsLong(id)
    ensures ResolveUserId(MapInboundClaims([Claim(NameIdClaimType, FormatInteger(id)), Claim(SubClaimType, FormatInteger(other))]))
         == Some(id)
  {
    var mapped := MapInboundClaims([Claim(NameIdClaimType, FormatInteger(id)), Claim(SubClaimType, FormatInteger(other))]);
    assert mapped == [Claim(NameIdentifierClaimType, FormatInteger(id)), Claim(NameIdentifierClaimType, FormatInteger(other))];
    FormatParseRoundTrip(id, LongMin, LongMax);
  }

  /**
   * Listing posts with a token issued to a user lists that user's posts.
   */
  lemma TokenListsOwnPosts(posts: seq<Post>, user: User, pageNumber: int, pageSize: int)
    requires IsLong(user.id)
    ensures GetPosts(posts, MapInboundClaims(TokenClaims(user)), Some(pageNumber), Some(pageSize))
         == Ok(ListPosts(posts, user.id, pageNumber, pageSize))
  {
    TokenIdentifiesUser(user);
  }
}
