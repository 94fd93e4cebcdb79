/** The user directory and the refresh-token manager. The two services
    call each other (deleting a user revokes its tokens; creating a token
    looks its user up by name), so they share one module. Each repository
    is a map field of its service; generated ids come from a sequence
    counter and the current time is a parameter. */
module Accounts {
  import opened Outcomes
  import Passwords

  /** A registered user. `password` holds the encoded password once saved. */
  datatype User = User(
    id: int,
    username: string,
    email: string,
    password: string,
    enabled: bool,
    roles: set<string>,
    points: int)

  /** A partial profile update: `None` fields are left as they are. */
  datatype UserUpdateRequest = UserUpdateRequest(
    username: Option<string>,
    enabled: Option<bool>,
    roles: Option<set<string>>,
    points: Option<int>)

  datatype PasswordChangeRequest = PasswordChangeRequest(oldPassword: string, newPassword: string)

  /** A session-continuation token bound to the user with id `owner`;
      `expiryDate` is in milliseconds since the epoch. */
  datatype RefreshToken = RefreshToken(token: string, owner: int, expiryDate: int)

  /** `userRepository.existsByUsername`. */
  predicate UsernameTaken(users: map<int, User>, username: string)
  {
    exists id :: id in users && users[id].username == username
  }

  /** `userRepository.existsByEmail`. */
  predicate EmailTaken(users: map<int, User>, email: string)
  {
    exists id :: id in users && users[id].email == email
  }

  /** The setters `applyUpdate` calls once the username check has passed. */
  function Patched(user: User, request: UserUpdateRequest): (r: User)
  {
    user.(
      username := if request.username.Some? then request.username.value else user.username,
      enabled := if request.enabled.Some? then request.enabled.value else user.enabled,
      roles := if request.roles.Some? then request.roles.value else user.roles,
      points := if request.points.Some? then request.points.value else user.points)
  }

  /** Only the non-null fields of an update apply; id, email and password
      never change. */
  lemma PatchedFields(user: User, request: UserUpdateRequest)
    ensures var u := Patched(user, request);
      && u.id == user.id && u.email == user.email && u.password == user.password
      && (request.username.None? ==> u.username == user.username)
      && (request.username.Some? ==> u.username == request.username.value)
      && (request.enabled.None? ==> u.enabled == user.enabled)
      && (request.enabled.Some? ==> u.enabled == request.enabled.value)
      && (request.roles.None? ==> u.roles == user.roles)
      && (request.roles.Some? ==> u.roles == request.roles.value)
      && (request.points.None? ==> u.points == user.points)
      && (request.points.Some? ==> u.points == request.points.value)
  {
  }

  /** `refreshTokenRepository.deleteByUser`: every token whose owner is not
      `userId`, unchanged. */
  function WithoutOwner(tokens: map<string, RefreshToken>, userId: int): (r: map<string, RefreshToken>)
  {
    map t | t in tokens && tokens[t].owner != userId :: tokens[t]
  }

  /** Revoking one user's tokens removes every token of that user and
      keeps every token of every other user. */
  lemma WithoutOwnerSpec(tokens: map<string, RefreshToken>, userId: int)
    ensures forall t :: t in WithoutOwner(tokens, userId) ==> WithoutOwner(tokens, userId)[t].owner != userId
    ensures forall t :: t in tokens && tokens[t].owner != userId ==>
      t in WithoutOwner(tokens, userId) && WithoutOwner(tokens, userId)[t] == tokens[t]
    ensures WithoutOwner(tokens, userId).Keys <= tokens.Keys
  {
  }

  class UserService {
    var users: map<int, User>
    var nextId: int

    /** Every user is stored under its own id, below the next id to hand
        out; usernames and emails are unique. */
    ghost predicate Valid()
      reads this
    {
      && (forall id :: id in users ==> users[id].id == id && id < nextId)
      && (forall a, b :: a in users && b in users && users[a].username == users[b].username ==> a == b)
      && (forall a, b :: a in users && b in users && users[a].email == users[b].email ==> a == b)
    }

    constructor ()
      ensures Valid() && users == map[]
    {
      users := map[];
      nextId := 1;
    }

    /** `getCurrentUser`: the authenticated principal, or Unauthorized when the
        caller is anonymous. The principal is passed in instead of being read
        from the security context. */
    method GetCurrentUser(principal: Option<User>) returns (r: Outcome<User>)
      ensures principal.None? ==> r == Err(Unauthorized)
      ensures principal.Some? ==> r == Ok(principal.value)
    {
      if principal.Some? {
        r := Ok(principal.value);
      } else {
        r := Err(Unauthorized);
      }
    }

    method FindById(userId: int) returns (r: Outcome<User>)
      requires Valid()
      ensures r.Ok? <==> userId in users
      ensures r.Ok? ==> r.value == users[userId] && r.value.id == userId
      ensures r.Err? ==> r.error == NotFound(UserId(userId))
    {
      if userId in users {
        r := Ok(users[userId]);
      } else {
        r := Err(NotFound(UserId(userId)));
      }
    }

    method FindByUsername(username: string) returns (r: Outcome<User>)
      requires Valid()
      ensures r.Ok? <==> UsernameTaken(users, username)
      ensures r.Ok? ==> r.value.username == username && r.value.id in users && users[r.value.id] == r.value
      ensures r.Err? ==> r.error == NotFound(Username(username))
    {
      if id :| id in users && users[id].username == username {
        r := Ok(users[id]);
      } else {
        r := Err(NotFound(Username(username)));
      }
    }

    method FindByEmail(email: string) returns (r: Outcome<User>)
      requires Valid()
      ensures r.Ok? <==> EmailTaken(users, email)
      ensures r.Ok? ==> r.value.email == email && r.value.id in users && users[r.value.id] == r.value
      ensures r.Err? ==> r.error == NotFound(Email(email))
    {
      if id :| id in users && users[id].email == email {
        r := Ok(users[id]);
      } else {
        r := Err(NotFound(Email(email)));
      }
    }

    method CheckUsernameAvailable(username: string) returns (r: Outcome<()>)
      ensures r.Ok? <==> !UsernameTaken(users, username)
      ensures r.Err? ==> r.error == Duplicate(Username(username))
    {
      if UsernameTaken(users, username) {
        r := Err(Duplicate(Username(username)));
      } else {
        r := Ok(());
      }
    }

    method CheckEmailAvailable(email: string) returns (r: Outcome<()>)
      ensures r.Ok? <==> !EmailTaken(users, email)
      ensures r.Err? ==> r.error == Duplicate(Email(email))
    {
      if EmailTaken(users, email) {
        r := Err(Duplicate(Email(email)));
      } else {
        r := Ok(());
      }
    }

    /** Registers `user` under a fresh id with its password encoded; the
        username is checked before the email. */
    method Save(user: User) returns (r: Outcome<User>)
      requires Valid()
      modifies this
      ensures Valid()
      ensures UsernameTaken(old(users), user.username) ==>
        r == Err(Duplicate(Username(user.username))) && users == old(users) && nextId == old(nextId)
      ensures !UsernameTaken(old(users), user.username) && EmailTaken(old(users), user.email) ==>
        r == Err(Duplicate(Email(user.email))) && users == old(users) && nextId == old(nextId)
      ensures !UsernameTaken(old(users), user.username) && !EmailTaken(old(users), user.email) ==>
        && r == Ok(user.(id := old(nextId), password := Passwords.Encode(user.password)))
        && old(nextId) !in old(users)
        && users == old(users)[old(nextId) := r.value]
        && nextId == old(nextId) + 1
    {
      var available := CheckUsernameAvailable(user.username);
      if available.Err? {
        return Err(available.error);
      }
      available := CheckEmailAvailable(user.email);
      if available.Err? {
        return Err(available.error);
      }
      var saved := user.(id := nextId, password := Passwords.Encode(user.password));
      users := users[nextId := saved];
      nextId := nextId + 1;
      r := Ok(saved);
    }

    /** `applyUpdate`: a taken username rejects the whole update, even when
        it is the user's own current name. */
    method ApplyUpdate(user: User, request: UserUpdateRequest) returns (r: Outcome<User>)
      ensures request.username.Some? && UsernameTaken(users, request.username.value) ==>
        r == Err(Duplicate(Username(request.username.value)))
      ensures request.username.None? || !UsernameTaken(users, request.username.value) ==>
        r == Ok(Patched(user, request))
    {
      if request.username.Some? {
        var available := CheckUsernameAvailable(request.username.value);
        if available.Err? {
          return Err(available.error);
        }
      }
      r := Ok(Patched(user, request));
    }

    /** Looks the user up first, then applies the partial update. */
    method Update(userId: int, request: UserUpdateRequest) returns (r: Outcome<User>)
      requires Valid()
      modifies this
      ensures Valid() && nextId == old(nextId)
      ensures userId !in old(users) ==> r == Err(NotFound(UserId(userId))) && users == old(users)
      ensures userId in old(users) && request.username.Some? && UsernameTaken(old(users), request.username.value) ==>
        r == Err(Duplicate(Username(request.username.value))) && users == old(users)
      ensures userId in old(users) && (request.username.None? || !UsernameTaken(old(users), request.username.value)) ==>
        && r == Ok(Patched(old(users)[userId], request))
        && users == old(users)[userId := r.value]
    {
      var found := FindById(userId);
      if found.Err? {
        return Err(found.error);
      }
      r := ApplyUpdate(found.value, request);
      if r.Ok? {
        users := users[userId := r.value];
      }
    }

    /** Changes the authenticated user's password after checking the old
        one against the principal's stored hash. */
    method ChangeUserPassword(principal: Option<User>, patch: PasswordChangeRequest) returns (r: Outcome<()>)
      requires Valid()
      requires principal.Some? ==> principal.value.id in users && users[principal.value.id] == principal.value
      modifies this
      ensures Valid() && nextId == old(nextId)
      ensures principal.None? ==> r == Err(Unauthorized) && users == old(users)
      ensures principal.Some? && !Passwords.Matches(patch.oldPassword, principal.value.password) ==>
        r == Err(PasswordMismatch) && users == old(users)
      ensures principal.Some? && Passwords.Matches(patch.oldPassword, principal.value.password) ==>
        && r == Ok(())
        && users == old(users)[principal.value.id := principal.value.(password := Passwords.Encode(patch.newPassword))]
    {
      var current := GetCurrentUser(principal);
      if current.Err? {
        return Err(current.error);
      }
      var user := current.value;
      if !Passwords.Matches(patch.oldPassword, user.password) {
        return Err(PasswordMismatch);
      }
      users := users[user.id := user.(password := Passwords.Encode(patch.newPassword))];
      r := Ok(());
    }

    /** Deletes a user after revoking all of its refresh tokens. */
    method Delete(userId: int, tokenService: RefreshTokenService) returns (r: Outcome<()>)
      requires Valid() && tokenService.Valid()
      modifies this, tokenService
      ensures Valid() && tokenService.Valid() && nextId == old(nextId)
      ensures userId !in old(users) ==>
        && r == Err(NotFound(UserId(userId)))
        && users == old(users)
        && tokenService.tokens == old(tokenService.tokens)
      ensures userId in old(users) ==>
        && r == Ok(())
        && users == old(users) - {userId}
        && tokenService.tokens == WithoutOwner(old(tokenService.tokens), userId)
    {
      var found := FindById(userId);
      if found.Err? {
        return Err(found.error);
      }
      tokenService.DeleteByUser(found.value);
      users := users - {userId};
      r := Ok(());
    }
  }

  class RefreshTokenService {
    /** `app.security.refresh-token.expirationMs`. */
    const refreshTokenDurationMs: int
    var tokens: map<string, RefreshToken>

    /** Every token is stored under its own token string. */
    ghost predicate Valid()
      reads this
    {
      forall t :: t in tokens ==> tokens[t].token == t
    }

    constructor (durationMs: int)
      ensures Valid() && tokens == map[] && refreshTokenDurationMs == durationMs
    {
      refreshTokenDurationMs := durationMs;
      tokens := map[];
    }

    /** Finds a stored token whatever its expiry. */
    method FindByToken(token: string) returns (r: Outcome<RefreshToken>)
      requires Valid()
      ensures r.Ok? <==> token in tokens
      ensures r.Ok? ==> r.value == tokens[token] && r.value.token == token
      ensures r.Err? ==> r.error == NotFound(Token(token))
    {
      if token in tokens {
        r := Ok(tokens[token]);
      } else {
        r := Err(NotFound(Token(token)));
      }
    }

    /** Issues a token for the user named `username`, expiring
        `refreshTokenDurationMs` after `now`; `freshToken` stands for the
        random UUID and is not yet in the store. Earlier tokens stay. */
    method Create(directory: UserService, username: string, now: int, freshToken: string) returns (r: Outcome<RefreshToken>)
      requires Valid() && directory.Valid()
      requires freshToken !in tokens
      modifies this
      ensures Valid()
      ensures !UsernameTaken(directory.users, username) ==>
        r == Err(NotFound(Username(username))) && tokens == old(tokens)
      ensures UsernameTaken(directory.users, username) ==>
        && r.Ok?
        && r.value.token == freshToken
        && r.value.expiryDate == now + refreshTokenDurationMs
        && r.value.owner in directory.users
        && directory.users[r.value.owner].username == username
        && tokens == old(tokens)[freshToken := r.value]
    {
      var user := directory.FindByUsername(username);
      if user.Err? {
        return Err(user.error);
      }
      var refreshToken := RefreshToken(freshToken, user.value.id, now + refreshTokenDurationMs);
      tokens := tokens[freshToken := refreshToken];
      r := Ok(refreshToken);
    }

    /** A token whose expiry is strictly before `now` is deleted and reported
        invalid; one expiring at `now` or later is kept and reported valid. */
    method VerifyExpiration(token: RefreshToken, now: int) returns (valid: bool)
      requires Valid()
      modifies this
      ensures Valid()
      ensures valid <==> token.expiryDate >= now
      ensures valid ==> tokens == old(tokens)
      ensures !valid ==> tokens == old(tokens) - {token.token}
    {
      if token.expiryDate < now {
        tokens := tokens - {token.token};
        return false;
      }
      return true;
    }

    /** Revokes every token of `user`; a user without tokens is no error. */
    method DeleteByUser(user: User)
      requires Valid()
      modifies this
      ensures Valid()
      ensures tokens == WithoutOwner(old(tokens), user.id)
    {
      tokens := WithoutOwner(tokens, user.id);
    }
  }
}
