/** Client-side checks of the refresh-token lifecycle, using only the
    services' contracts: what a caller of the token manager and of the
    user directory can rely on across several calls. */
module Scenarios {
  import opened Outcomes
  import opened Accounts

  /** An expired token is consumed by the expiry check: afterwards it can no
      longer be found. */
  method ExpiredTokenIsConsumed(service: RefreshTokenService, token: string, now: int)
    returns (valid: bool, lookup: Outcome<RefreshToken>)
    requires service.Valid()
    requires token in service.tokens && service.tokens[token].expiryDate < now
    modifies service
    ensures !valid && lookup == Err(NotFound(Token(token)))
  {
    var found := service.FindByToken(token);
    valid := service.VerifyExpiration(found.value, now);
    lookup := service.FindByToken(token);
  }

  /** A token expiring at `now` or later passes the check and stays findable. */
  method LiveTokenStaysFindable(service: RefreshTokenService, token: string, now: int)
    returns (valid: bool, lookup: Outcome<RefreshToken>)
    requires service.Valid()
    requires token in service.tokens && service.tokens[token].expiryDate >= now
    modifies service
    ensures valid && lookup == Ok(old(service.tokens[token]))
  {
    var found := service.FindByToken(token);
    valid := service.VerifyExpiration(found.value, now);
    lookup := service.FindByToken(token);
  }

  /** Two tokens created for one user are distinct, both stored and both
      owned by that user. */
  method CreateTwice(directory: UserService, service: RefreshTokenService, username: string,
                     now: int, first: string, second: string)
    returns (a: Outcome<RefreshToken>, b: Outcome<RefreshToken>)
    requires directory.Valid() && service.Valid()
    requires UsernameTaken(directory.users, username)
    requires first != second && first !in service.tokens && second !in service.tokens
    modifies service
    ensures a.Ok? && b.Ok? && a.value.token != b.value.token
    ensures a.value.owner == b.value.owner
    ensures a.value.token in service.tokens && b.value.token in service.tokens
  {
    a := service.Create(directory, username, now, first);
    b := service.Create(directory, username, now, second);
  }

  /** Deleting a user leaves no token owned by that user. */
  method DeletedUserHasNoTokens(directory: UserService, service: RefreshTokenService, userId: int)
    returns (r: Outcome<()>)
    requires directory.Valid() && service.Valid()
    requires userId in directory.users
    modifies directory, service
    ensures r == Ok(()) && userId !in directory.users
    ensures forall t :: t in service.tokens ==> service.tokens[t].owner != userId
  {
    r := directory.Delete(userId, service);
    WithoutOwnerSpec(old(service.tokens), userId);
  }

  /** Renaming a user to the username it already has is refused as a duplicate. */
  method UpdateToOwnUsernameFails(directory: UserService, userId: int, request: UserUpdateRequest)
    returns (r: Outcome<User>)
    requires directory.Valid()
    requires userId in directory.users && request.username == Some(directory.users[userId].username)
    modifies directory
    ensures r == Err(Duplicate(Username(old(directory.users[userId].username))))
    ensures directory.users == old(directory.users)
  {
    r := directory.Update(userId, request);
  }
}
