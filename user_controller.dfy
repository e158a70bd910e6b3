/** `practice.controller.js`: registration, login, token rotation, logout, password and
    account changes, the two image replacements and the channel profile. The caller's id
    is the one the authentication middleware put on the request. */
module UserController {
  import opened Common
  import opened Text
  import opened Seqs
  import opened AssetStore
  import opened UserModel
  import opened PostModel
  import opened SubscriptionModel
  import opened SubscriptionController

  /** With distinct ids, `findById` on a stored user's id finds that user. */
  lemma FindUserUnique(rows: seq<User>, nextId: Id, k: nat)
    requires UsersValid(rows, nextId) && k < |rows|
    ensures FindUser(rows, rows[k].id) == Some(k)
  {
    var f := FindUser(rows, rows[k].id);
    assert f.Some?;
    assert rows[f.value].id == rows[k].id;
  }

  /** Replacing a user by one with the same id, in stored form, whose username and e-mail
      no other user holds, keeps the collection valid. */
  lemma ReplaceKeepsValid(rows: seq<User>, nextId: Id, k: nat, v: User)
    requires UsersValid(rows, nextId) && k < |rows| && v.id == rows[k].id && StoredForm(v)
    requires forall j :: 0 <= j < |rows| && j != k ==> rows[j].username != v.username && rows[j].email != v.email
    ensures UsersValid(rows[k := v], nextId)
  {
    var r := rows[k := v];
    forall i, j | 0 <= i < j < |r|
      ensures r[i].id != r[j].id && r[i].username != r[j].username && r[i].email != r[j].email
    {
      if i == k {
        assert r[j] == rows[j];
      } else if j == k {
        assert r[i] == rows[i];
      } else {
        assert r[i] == rows[i] && r[j] == rows[j];
      }
    }
  }

  /** Replacing a user by one with the same id, username, e-mail and full name keeps the
      collection valid. */
  lemma SameKeysKeepValid(rows: seq<User>, nextId: Id, k: nat, u: User)
    requires UsersValid(rows, nextId) && k < |rows|
    requires u.id == rows[k].id && u.username == rows[k].username
    requires u.email == rows[k].email && u.fullName == rows[k].fullName
    ensures UsersValid(rows[k := u], nextId)
  {
    forall j | 0 <= j < |rows| && j != k ensures rows[j].username != u.username && rows[j].email != u.email {
      if j < k {
        assert rows[j].username != rows[k].username;
      } else {
        assert rows[k].username != rows[j].username;
      }
    }
    ReplaceKeepsValid(rows, nextId, k, u);
  }

  /** The user `u` with a freshly issued refresh token stored. */
  function WithRefreshToken(u: User, now: nat): (v: User)
    ensures v.refreshToken == Some(RefreshTokenFor(u, now))
    ensures v.(refreshToken := u.refreshToken) == u
  {
    u.(refreshToken := Some(RefreshTokenFor(u, now)))
  }

  /** `generateAccessAndRefreshToken`: both tokens are signed for the user, and the refresh
      token is stored on it; a missing user surfaces as 500. */
  method IssueTokens(users: UserTable, id: Id, now: nat) returns (r: Result<(Token, Token)>)
    requires users.Valid()
    modifies users
    ensures users.Valid() && users.nextId == old(users.nextId)
    ensures FindUser(old(users.rows), id).None? ==> r == Err(ServerError) && users.rows == old(users.rows)
    ensures FindUser(old(users.rows), id).Some? ==>
      var k := FindUser(old(users.rows), id).value;
      var u := old(users.rows)[k];
      && r == Ok((AccessTokenFor(u, now), RefreshTokenFor(u, now)))
      && users.rows == old(users.rows)[k := WithRefreshToken(u, now)]
  {
    var found := FindUser(users.rows, id);
    if found.None? {
      return Err(ServerError);
    }
    var k := found.value;
    var u := users.rows[k];
    var access := AccessTokenFor(u, now);
    var refresh := RefreshTokenFor(u, now);
    SameKeysKeepValid(users.rows, users.nextId, k, WithRefreshToken(u, now));
    users.Save(k, WithRefreshToken(u, now));
    r := Ok((access, refresh));
  }

  /** `User.findOne({$or: [{username}, {email}]})`. The schema's setters normalise both
      values in the filter; the first user in natural order holding either is returned. */
  function FindByUsernameOrEmail(rows: seq<User>, username: string, email: string): (r: Option<nat>)
    ensures r.Some? ==> r.value < |rows|
    ensures r.Some? ==> rows[r.value].username == Normalize(username) || rows[r.value].email == Normalize(email)
    ensures r.None? <==> !Taken(rows, Normalize(username), Normalize(email))
  {
    FindIndex(rows, (u: User) => u.username == Normalize(username) || u.email == Normalize(email))
  }

  /** A field that is not blank normalises to a non-empty value. */
  lemma NotBlankNormalizes(s: string)
    requires !IsBlank(s)
    ensures Trim(s) != "" && Normalize(s) != ""
  {
    TrimEmptyIffBlank(s);
  }

  /** `registerUser`: 400 when a field is blank, 409 when the username or the e-mail is
      taken, otherwise exactly one user is added and returned without its secrets. */
  method RegisterUser(users: UserTable, username: string, fullName: string, password: string, email: string, now: nat)
    returns (r: Result<PublicUser>)
    requires users.Valid()
    modifies users
    ensures users.Valid()
    ensures IsBlank(fullName) || IsBlank(username) || IsBlank(password) || IsBlank(email) ==>
      r == Err(BadRequest) && unchanged(users)
    ensures !IsBlank(fullName) && !IsBlank(username) && !IsBlank(password) && !IsBlank(email)
            && Taken(old(users.rows), Normalize(username), Normalize(email)) ==>
      r == Err(Conflict) && unchanged(users)
    ensures !IsBlank(fullName) && !IsBlank(username) && !IsBlank(password) && !IsBlank(email)
            && !Taken(old(users.rows), Normalize(username), Normalize(email)) ==>
      var u := NewUser(old(users.nextId), username, fullName, password, email, now);
      && users.rows == old(users.rows) + [u] && users.nextId == old(users.nextId) + 1
      && r == Ok(PublicView(u))
  {
    TrimEmptyIffBlank(fullName);
    TrimEmptyIffBlank(username);
    TrimEmptyIffBlank(password);
    TrimEmptyIffBlank(email);
    if Trim(fullName) == "" || Trim(username) == "" || Trim(password) == "" || Trim(email) == "" {
      return Err(BadRequest);
    }
    if FindByUsernameOrEmail(users.rows, username, email).Some? {
      return Err(Conflict);
    }
    NotBlankNormalizes(username);
    NotBlankNormalizes(email);
    var created := users.Create(username, fullName, password, email, now);
    r := Ok(PublicView(created.value));
  }

  /** What a successful login returns: the user without its secrets and both tokens. */
  datatype Session = Session(user: PublicUser, accessToken: Token, refreshToken: Token)

  /** `loginUser`: 400 when a field is blank, 404 when nobody holds the username or the
      e-mail, 400 on a wrong password; otherwise fresh tokens, the refresh token stored. */
  method LoginUser(users: UserTable, username: string, email: string, password: string, now: nat)
    returns (r: Result<Session>)
    requires users.Valid()
    modifies users
    ensures users.Valid() && users.nextId == old(users.nextId)
    ensures IsBlank(username) || IsBlank(email) || IsBlank(password) ==> r == Err(BadRequest) && unchanged(users)
    ensures !IsBlank(username) && !IsBlank(email) && !IsBlank(password) ==>
      match FindByUsernameOrEmail(old(users.rows), username, email)
      case None => r == Err(NotFound) && unchanged(users)
      case Some(k) =>
        var u := old(users.rows)[k];
        && (!IsPasswordCorrect(password, u.password) ==> r == Err(BadRequest) && unchanged(users))
        && (IsPasswordCorrect(password, u.password) ==>
              && r == Ok(Session(PublicView(u), AccessTokenFor(u, now), RefreshTokenFor(u, now)))
              && users.rows == old(users.rows)[k := WithRefreshToken(u, now)])
  {
    TrimEmptyIffBlank(username);
    TrimEmptyIffBlank(email);
    TrimEmptyIffBlank(password);
    if Trim(username) == "" || Trim(email) == "" || Trim(password) == "" {
      return Err(BadRequest);
    }
    var found := FindByUsernameOrEmail(users.rows, username, email);
    if found.None? {
      return Err(NotFound);
    }
    var k := found.value;
    var u := users.rows[k];
    if !IsPasswordCorrect(password, u.password) {
      return Err(BadRequest);
    }
    FindUserUnique(users.rows, users.nextId, k);
    var tokens := IssueTokens(users, u.id, now);
    r := Ok(Session(PublicView(users.rows[k]), tokens.value.0, tokens.value.1));
  }

  /** `logoutUser`, with the caller's id used as the `_id` filter it stands for: the stored
      refresh token is removed. */
  method LogoutUser(users: UserTable, caller: Id)
    requires users.Valid()
    modifies users
    ensures users.Valid() && users.nextId == old(users.nextId)
    ensures FindUser(old(users.rows), caller).None? ==> users.rows == old(users.rows)
    ensures FindUser(old(users.rows), caller).Some? ==>
      var k := FindUser(old(users.rows), caller).value;
      users.rows == old(users.rows)[k := old(users.rows)[k].(refreshToken := None)]
  {
    var found := FindUser(users.rows, caller);
    if found.Some? {
      var k := found.value;
      SameKeysKeepValid(users.rows, users.nextId, k, users.rows[k].(refreshToken := None));
      users.Save(k, users.rows[k].(refreshToken := None));
    }
  }

  /** The checks `refreshAccessToken` makes before issuing new tokens: a cookie is present,
      it verifies as a refresh token, its user exists, and it is the token stored on that
      user. Every failure is a 401, the missing user's 404 included. */
  function RefreshCheck(rows: seq<User>, cookie: Option<Token>): (r: Result<nat>)
    ensures r.Err? ==> r.error == Unauthorized
    ensures r.Ok? ==> r.value < |rows| && cookie == rows[r.value].refreshToken
    ensures r.Ok? ==> cookie.Some? && cookie.value == RefreshToken(rows[r.value].id, cookie.value.issuedAt)
  {
    if cookie.None? || !cookie.value.RefreshToken? then Err(Unauthorized)
    else
      match FindUser(rows, cookie.value.sub)
      case None => Err(Unauthorized)
      case Some(k) => if rows[k].refreshToken != cookie then Err(Unauthorized) else Ok(k)
  }

  /** The token stored on a user passes the check. */
  lemma StoredTokenAccepted(rows: seq<User>, nextId: Id, k: nat, issuedAt: nat)
    requires UsersValid(rows, nextId) && k < |rows|
    requires rows[k].refreshToken == Some(RefreshToken(rows[k].id, issuedAt))
    ensures RefreshCheck(rows, rows[k].refreshToken) == Ok(k)
  {
    FindUserUnique(rows, nextId, k);
  }

  /** After a rotation only the new token is accepted: a refresh token of the same user
      issued in another second is rejected. */
  lemma RotationRejectsOldToken(rows: seq<User>, nextId: Id, k: nat, now: nat, stale: Token)
    requires UsersValid(rows, nextId) && k < |rows|
    requires stale.RefreshToken? && stale.sub == rows[k].id && stale.issuedAt != now
    ensures var rotated := rows[k := WithRefreshToken(rows[k], now)];
      && RefreshCheck(rotated, Some(stale)).Err?
      && RefreshCheck(rotated, Some(RefreshTokenFor(rows[k], now))) == Ok(k)
  {
    var rotated := rows[k := WithRefreshToken(rows[k], now)];
    SameKeysKeepValid(rows, nextId, k, WithRefreshToken(rows[k], now));
    FindUserUnique(rotated, nextId, k);
  }

  /** After logout no refresh token of that user is accepted. */
  lemma LogoutRejectsTokens(rows: seq<User>, nextId: Id, k: nat, t: Token)
    requires UsersValid(rows, nextId) && k < |rows|
    requires t.RefreshToken? && t.sub == rows[k].id
    ensures RefreshCheck(rows[k := rows[k].(refreshToken := None)], Some(t)).Err?
  {
    var out := rows[k := rows[k].(refreshToken := None)];
    SameKeysKeepValid(rows, nextId, k, out[k]);
    FindUserUnique(out, nextId, k);
  }

  /** `refreshAccessToken`: 401 unless the check passes; then both tokens are issued again
      and the new refresh token replaces the stored one. */
  method RefreshAccessToken(users: UserTable, cookie: Option<Token>, now: nat) returns (r: Result<(Token, Token)>)
    requires users.Valid()
    modifies users
    ensures users.Valid() && users.nextId == old(users.nextId)
    ensures RefreshCheck(old(users.rows), cookie).Err? ==> r == Err(Unauthorized) && unchanged(users)
    ensures RefreshCheck(old(users.rows), cookie).Ok? ==>
      var k := RefreshCheck(old(users.rows), cookie).value;
      var u := old(users.rows)[k];
      && r == Ok((AccessTokenFor(u, now), RefreshTokenFor(u, now)))
      && users.rows == old(users.rows)[k := WithRefreshToken(u, now)]
  {
    var check := RefreshCheck(users.rows, cookie);
    if check.Err? {
      return Err(Unauthorized);
    }
    var k := check.value;
    FindUserUnique(users.rows, users.nextId, k);
    r := IssueTokens(users, users.rows[k].id, now);
  }

  /** `changeCurrentPassword`: 400 when either password is empty, 404 for a missing user,
      400 when the old password is wrong; otherwise the pre-save hook hashes the new one. */
  method ChangeCurrentPassword(users: UserTable, caller: Id, newPassword: string, oldPassword: string)
    returns (r: Result<()>)
    requires users.Valid()
    modifies users
    ensures users.Valid() && users.nextId == old(users.nextId)
    ensures newPassword == "" || oldPassword == "" ==> r == Err(BadRequest) && unchanged(users)
    ensures newPassword != "" && oldPassword != "" ==>
      match FindUser(old(users.rows), caller)
      case None => r == Err(NotFound) && unchanged(users)
      case Some(k) =>
        var u := old(users.rows)[k];
        && (!IsPasswordCorrect(oldPassword, u.password) ==> r == Err(BadRequest) && unchanged(users))
        && (IsPasswordCorrect(oldPassword, u.password) ==>
              r == Ok(()) && users.rows == old(users.rows)[k := u.(password := PreSaveHash(u.password, Some(newPassword)))])
  {
    if newPassword == "" || oldPassword == "" {
      return Err(BadRequest);
    }
    var found := FindUser(users.rows, caller);
    if found.None? {
      return Err(NotFound);
    }
    var k := found.value;
    var u := users.rows[k];
    if !IsPasswordCorrect(oldPassword, u.password) {
      return Err(BadRequest);
    }
    var changed := u.(password := PreSaveHash(u.password, Some(newPassword)));
    SameKeysKeepValid(users.rows, users.nextId, k, changed);
    users.Save(k, changed);
    r := Ok(());
  }

  /** `getCurrentUser`: the caller without secrets, or 404. */
  function GetCurrentUser(rows: seq<User>, caller: Id): (r: Result<PublicUser>)
    ensures r.Err? <==> forall i :: 0 <= i < |rows| ==> rows[i].id != caller
    ensures r.Err? ==> r.error == NotFound
    ensures r.Ok? ==> r.value.id == caller && exists i :: 0 <= i < |rows| && r.value == PublicView(rows[i])
  {
    match FindUser(rows, caller)
    case None => Err(NotFound)
    case Some(k) => Ok(PublicView(rows[k]))
  }

  /** Some user other than `caller` stores this e-mail. */
  predicate EmailHeldByOther(rows: seq<User>, caller: Id, email: string)
  {
    exists i :: 0 <= i < |rows| && rows[i].email == email && rows[i].id != caller
  }

  /** Some user other than `caller` stores this username. */
  predicate UsernameHeldByOther(rows: seq<User>, caller: Id, username: string)
  {
    exists i :: 0 <= i < |rows| && rows[i].username == username && rows[i].id != caller
  }

  /** `User.findOne({email, _id: {$ne: caller}})`. */
  function FindEmailHolder(rows: seq<User>, caller: Id, email: string): (r: Option<nat>)
    ensures r.None? <==> !EmailHeldByOther(rows, caller, email)
    ensures r.Some? ==> r.value < |rows| && rows[r.value].email == email && rows[r.value].id != caller
  {
    FindIndex(rows, (u: User) => u.email == email && u.id != caller)
  }

  /** `User.findOne({username, _id: {$ne: caller}})`. */
  function FindUsernameHolder(rows: seq<User>, caller: Id, username: string): (r: Option<nat>)
    ensures r.None? <==> !UsernameHeldByOther(rows, caller, username)
    ensures r.Some? ==> r.value < |rows| && rows[r.value].username == username && rows[r.value].id != caller
  {
    FindIndex(rows, (u: User) => u.username == username && u.id != caller)
  }

  /** The input checks of `updateAccountDetails`: every field present, a username of at
      least three characters, an e-mail matching the pattern (`IsValidEmail` is that
      pattern, by `Text.EmailCheckMatchesPattern`). */
  predicate DetailsWellFormed(username: string, fullName: string, email: string)
  {
    username != "" && fullName != "" && email != "" && |username| >= 3 && IsValidEmail(email)
  }

  /** The checks of `updateAccountDetails` in their order, ending with the caller's
      position: 400 for malformed input, 409 for an e-mail and then a username held by
      another user, and a failure when the caller no longer exists. */
  function AccountDetailsCheck(rows: seq<User>, caller: Id, username: string, fullName: string, email: string)
    : (r: Result<nat>)
    ensures r == Err(BadRequest) <==> !DetailsWellFormed(username, fullName, email)
    ensures r == Err(Conflict) <==>
      && DetailsWellFormed(username, fullName, email)
      && (EmailHeldByOther(rows, caller, Normalize(email)) || UsernameHeldByOther(rows, caller, Normalize(username)))
    ensures r == Err(Unhandled) <==>
      && DetailsWellFormed(username, fullName, email)
      && !EmailHeldByOther(rows, caller, Normalize(email)) && !UsernameHeldByOther(rows, caller, Normalize(username))
      && forall i :: 0 <= i < |rows| ==> rows[i].id != caller
    ensures r.Ok? ==> r.value < |rows| && rows[r.value].id == caller
    ensures r.Ok? ==> !EmailHeldByOther(rows, caller, Normalize(email)) && !UsernameHeldByOther(rows, caller, Normalize(username))
  {
    if username == "" || fullName == "" || email == "" then Err(BadRequest)
    else if |username| < 3 then Err(BadRequest)
    else if !IsValidEmail(email) then Err(BadRequest)
    else if FindEmailHolder(rows, caller, Normalize(email)).Some? then Err(Conflict)
    else if FindUsernameHolder(rows, caller, Normalize(username)).Some? then Err(Conflict)
    else
      match FindUser(rows, caller)
      case None => Err(Unhandled)
      case Some(k) => Ok(k)
  }

  /** The caller's record after the update: the setters normalise the username and the
      e-mail and trim the full name. */
  function WithDetails(u: User, username: string, fullName: string, email: string): User
  {
    u.(email := Normalize(email), username := Normalize(username), fullName := Trim(fullName))
  }

  /** An update that passed the checks keeps usernames and e-mails unique and normalised. */
  lemma UpdateDetailsKeepsValid(rows: seq<User>, nextId: Id, caller: Id, username: string, fullName: string, email: string)
    requires UsersValid(rows, nextId)
    requires AccountDetailsCheck(rows, caller, username, fullName, email).Ok?
    ensures var k := AccountDetailsCheck(rows, caller, username, fullName, email).value;
      UsersValid(rows[k := WithDetails(rows[k], username, fullName, email)], nextId)
  {
    var k := AccountDetailsCheck(rows, caller, username, fullName, email).value;
    var v := WithDetails(rows[k], username, fullName, email);
    NormalizedIffFixed(username);
    NormalizedIffFixed(email);
    TrimIsTrimmed(fullName);
    forall j | 0 <= j < |rows| && j != k ensures rows[j].username != v.username && rows[j].email != v.email {
      var u := rows[j];
      assert u.id != caller;
      assert !(u.email == Normalize(email) && u.id != caller) by {
        assert !EmailHeldByOther(rows, caller, Normalize(email));
      }
      assert !(u.username == Normalize(username) && u.id != caller) by {
        assert !UsernameHeldByOther(rows, caller, Normalize(username));
      }
    }
    ReplaceKeepsValid(rows, nextId, k, v);
  }

  /** `updateAccountDetails`: after the checks, only the caller's e-mail, username and full
      name change. */
  method UpdateAccountDetails(users: UserTable, caller: Id, username: string, fullName: string, email: string)
    returns (r: Result<()>)
    requires users.Valid()
    modifies users
    ensures users.Valid() && users.nextId == old(users.nextId)
    ensures AccountDetailsCheck(old(users.rows), caller, username, fullName, email).Err? ==>
      r == Err(AccountDetailsCheck(old(users.rows), caller, username, fullName, email).error) && unchanged(users)
    ensures AccountDetailsCheck(old(users.rows), caller, username, fullName, email).Ok? ==>
      var k := AccountDetailsCheck(old(users.rows), caller, username, fullName, email).value;
      r == Ok(()) && users.rows == old(users.rows)[k := WithDetails(old(users.rows)[k], username, fullName, email)]
  {
    var check := AccountDetailsCheck(users.rows, caller, username, fullName, email);
    if check.Err? {
      return Err(check.error);
    }
    var k := check.value;
    UpdateDetailsKeepsValid(users.rows, users.nextId, caller, username, fullName, email);
    users.Save(k, WithDetails(users.rows[k], username, fullName, email));
    r := Ok(());
  }

  /** Which image `updateUserAvatar` or `updateUserCoverImage` replaces. */
  datatype ImageField = AvatarImage | CoverImage

  function ImageOf(u: User, f: ImageField): Asset
  {
    match f
    case AvatarImage => u.avatar
    case CoverImage => u.coverImage
  }

  /** `$set: {avatar: {url, public_id}}` or the same for `coverImage`. */
  function WithImage(u: User, f: ImageField, a: Asset): (v: User)
    ensures ImageOf(v, f) == a
    ensures v.(avatar := u.avatar, coverImage := u.coverImage) == u
  {
    match f
    case AvatarImage => u.(avatar := a)
    case CoverImage => u.(coverImage := a)
  }

  /** The requests an image replacement sends to the host: the destroy of the old asset
      when it has a public id, and then the upload. */
  function ReplaceCalls(oldId: string, localPath: string): seq<AssetCall>
  {
    (if oldId != "" then [DestroyCall(oldId)] else []) + [UploadCall(localPath)]
  }

  /** `updateUserAvatar` / `updateUserCoverImage`: 404 for a missing user, 400 without a
      file; then the old asset is destroyed (a failed destroy is ignored) and the file is
      uploaded; a failed upload is a 500 and the field keeps its old value. */
  method ReplaceUserImage(users: UserTable, host: AssetHost, caller: Id, f: ImageField,
                          file: Option<string>, destroyOk: bool, response: Option<Asset>)
    returns (r: Result<PublicUser>)
    requires users.Valid()
    modifies users, host
    ensures users.Valid() && users.nextId == old(users.nextId)
    ensures FindUser(old(users.rows), caller).None? ==> r == Err(NotFound) && unchanged(users) && unchanged(host)
    ensures FindUser(old(users.rows), caller).Some? && !HasPath(file) ==>
      r == Err(BadRequest) && unchanged(users) && unchanged(host)
    ensures FindUser(old(users.rows), caller).Some? && HasPath(file) ==>
      var k := FindUser(old(users.rows), caller).value;
      var oldId := ImageOf(old(users.rows)[k], f).publicId;
      && host.calls == old(host.calls) + ReplaceCalls(oldId, file.value)
      && host.stored == (if oldId != "" && destroyOk then old(host.stored) - {oldId} else old(host.stored))
                        + (if response.Some? then {response.value.publicId} else {})
      && (response.None? ==> r == Err(ServerError) && users.rows == old(users.rows))
      && (response.Some? ==>
            && users.rows == old(users.rows)[k := WithImage(old(users.rows)[k], f, response.value)]
            && r == Ok(PublicView(users.rows[k])))
  {
    var found := FindUser(users.rows, caller);
    if found.None? {
      return Err(NotFound);
    }
    if !HasPath(file) {
      return Err(BadRequest);
    }
    var k := found.value;
    var oldId := ImageOf(users.rows[k], f).publicId;
    if oldId != "" {
      host.Delete(oldId, destroyOk);
    }
    var uploaded := host.Upload(file.value, response);
    if uploaded.None? {
      return Err(ServerError);
    }
    var v := WithImage(users.rows[k], f, uploaded.value);
    SameKeysKeepValid(users.rows, users.nextId, k, v);
    users.Save(k, v);
    r := Ok(PublicView(v));
  }

  method UpdateUserAvatar(users: UserTable, host: AssetHost, caller: Id,
                          file: Option<string>, destroyOk: bool, response: Option<Asset>)
    returns (r: Result<PublicUser>)
    requires users.Valid()
    modifies users, host
    ensures users.Valid() && users.nextId == old(users.nextId)
    ensures FindUser(old(users.rows), caller).None? ==> r == Err(NotFound) && unchanged(users) && unchanged(host)
    ensures FindUser(old(users.rows), caller).Some? && !HasPath(file) ==>
      r == Err(BadRequest) && unchanged(users) && unchanged(host)
    ensures FindUser(old(users.rows), caller).Some? && HasPath(file) ==>
      var k := FindUser(old(users.rows), caller).value;
      var oldId := old(users.rows)[k].avatar.publicId;
      && host.calls == old(host.calls) + ReplaceCalls(oldId, file.value)
      && host.stored == (if oldId != "" && destroyOk then old(host.stored) - {oldId} else old(host.stored))
                        + (if response.Some? then {response.value.publicId} else {})
      && (response.None? ==> r == Err(ServerError) && users.rows == old(users.rows))
      && (response.Some? ==>
            && users.rows == old(users.rows)[k := old(users.rows)[k].(avatar := response.value)]
            && r == Ok(PublicView(users.rows[k])))
  {
    r := ReplaceUserImage(users, host, caller, AvatarImage, file, destroyOk, response);
  }

  method UpdateUserCoverImage(users: UserTable, host: AssetHost, caller: Id,
                              file: Option<string>, destroyOk: bool, response: Option<Asset>)
    returns (r: Result<PublicUser>)
    requires users.Valid()
    modifies users, host
    ensures users.Valid() && users.nextId == old(users.nextId)
    ensures FindUser(old(users.rows), caller).None? ==> r == Err(NotFound) && unchanged(users) && unchanged(host)
    ensures FindUser(old(users.rows), caller).Some? && !HasPath(file) ==>
      r == Err(BadRequest) && unchanged(users) && unchanged(host)
    ensures FindUser(old(users.rows), caller).Some? && HasPath(file) ==>
      var k := FindUser(old(users.rows), caller).value;
      var oldId := old(users.rows)[k].coverImage.publicId;
      && host.calls == old(host.calls) + ReplaceCalls(oldId, file.value)
      && host.stored == (if oldId != "" && destroyOk then old(host.stored) - {oldId} else old(host.stored))
                        + (if response.Some? then {response.value.publicId} else {})
      && (response.None? ==> r == Err(ServerError) && users.rows == old(users.rows))
      && (response.Some? ==>
            && users.rows == old(users.rows)[k := old(users.rows)[k].(coverImage := response.value)]
            && r == Ok(PublicView(users.rows[k])))
  {
    r := ReplaceUserImage(users, host, caller, CoverImage, file, destroyOk, response);
  }

  /** The replacement sends a destroy exactly when the old asset has a public id, always
      before the upload. */
  lemma DestroyBeforeUpload(oldId: string, localPath: string)
    ensures var calls := ReplaceCalls(oldId, localPath);
      && calls[|calls| - 1] == UploadCall(localPath)
      && (DestroyCall(oldId) in calls <==> oldId != "")
      && (oldId != "" ==> calls == [DestroyCall(oldId), UploadCall(localPath)])
  {
  }

  /** The channel profile: the user's public fields plus the counts. */
  datatype ChannelProfile = ChannelProfile(
    id: Id,
    username: string,
    email: string,
    postCount: nat,
    isSubscribed: bool,
    subscriberCount: nat,
    channelSubscribedCount: nat,
    avatar: Asset,
    coverImage: Asset)

  /** `$match: {username}` in an aggregation: no setter runs on the value, so it is compared
      as given. */
  function FindByUsername(rows: seq<User>, username: string): (r: Option<nat>)
    ensures r.Some? ==> r.value < |rows| && rows[r.value].username == username
    ensures r.None? <==> forall i :: 0 <= i < |rows| ==> rows[i].username != username
  {
    FindIndex(rows, (u: User) => u.username == username)
  }

  /** `caller` appears among the subscribers of `channel`. */
  predicate IsSubscribed(subs: seq<Subscription>, caller: Id, channel: Id)
  {
    exists i :: 0 <= i < |subs| && IsPair(subs[i], caller, channel)
  }

  /** `getUserChannelProfile`: 400 without a username, 404 when nobody has it; otherwise the
      three counts and whether the caller subscribes. */
  function GetUserChannelProfile(users: seq<User>, subs: seq<Subscription>, posts: seq<Post>, caller: Id, username: string)
    : (r: Result<ChannelProfile>)
    ensures username == "" ==> r == Err(BadRequest)
    ensures username != "" ==> (r == Err(NotFound) <==> forall i :: 0 <= i < |users| ==> users[i].username != username)
    ensures r.Ok? ==> r.value.username == username
    ensures r.Ok? ==>
      exists i :: 0 <= i < |users| && users[i].id == r.value.id && users[i].username == username &&
        users[i].email == r.value.email && users[i].avatar == r.value.avatar && users[i].coverImage == r.value.coverImage
    ensures r.Ok? ==> (r.value.isSubscribed <==> IsSubscribed(subs, caller, r.value.id))
    ensures r.Ok? ==> (r.value.subscriberCount == 0 <==> forall i :: 0 <= i < |subs| ==> subs[i].channel != r.value.id)
    ensures r.Ok? ==> (r.value.channelSubscribedCount == 0 <==> forall i :: 0 <= i < |subs| ==> subs[i].subscriber != r.value.id)
    ensures r.Ok? ==> (r.value.postCount == 0 <==> forall i :: 0 <= i < |posts| ==> posts[i].owner != r.value.id)
    ensures r.Ok? ==>
      && r.value.subscriberCount == CountKey(subs, ChannelOf, r.value.id)
      && r.value.channelSubscribedCount == CountKey(subs, SubscriberOf, r.value.id)
      && r.value.postCount == CountKey(posts, OwnerOf, r.value.id)
  {
    if username == "" then Err(BadRequest)
    else
      match FindByUsername(users, username)
      case None => Err(NotFound)
      case Some(k) =>
        var u := users[k];
        Ok(ChannelProfile(
          u.id, u.username, u.email,
          CountKey(posts, OwnerOf, u.id),
          FindSubscription(subs, caller, u.id).Some?,
          CountKey(subs, ChannelOf, u.id),
          CountKey(subs, SubscriberOf, u.id),
          u.avatar, u.coverImage))
  }

  /** Deleting the caller's only subscription to `channel` ends it and takes one off the
      channel's subscribers. */
  lemma UnsubscribeCounts(subs: seq<Subscription>, k: nat, caller: Id, channel: Id)
    requires NoDuplicatePairs(subs) && k < |subs| && IsPair(subs[k], caller, channel)
    ensures FindSubscription(RemoveAt(subs, k), caller, channel).None?
    ensures CountKey(RemoveAt(subs, k), ChannelOf, channel) + 1 == CountKey(subs, ChannelOf, channel)
  {
    var r := RemoveAt(subs, k);
    CountKeyRemoveAt(subs, k, ChannelOf, channel);
    forall i | 0 <= i < |r| ensures !IsPair(r[i], caller, channel) {
      assert r[i] == subs[if i < k then i else i + 1];
    }
  }

  /** A new subscription by the caller starts it and adds one to the channel's subscribers. */
  lemma SubscribeCounts(subs: seq<Subscription>, s: Subscription, caller: Id, channel: Id)
    requires IsPair(s, caller, channel)
    ensures FindSubscription(subs + [s], caller, channel).Some?
    ensures CountKey(subs + [s], ChannelOf, channel) == CountKey(subs, ChannelOf, channel) + 1
  {
    CountKeyAppend(subs, s, ChannelOf, channel);
    assert (subs + [s])[|subs|] == s;
  }

  /** A subscription toggle by the caller flips `isSubscribed` on the channel's profile and
      moves its subscriber count by one. */
  lemma ToggleMovesProfile(users: seq<User>, subs: seq<Subscription>, posts: seq<Post>, nextId: Id,
                           caller: Id, username: string, now: nat)
    requires NoDuplicatePairs(subs)
    requires GetUserChannelProfile(users, subs, posts, caller, username).Ok?
    ensures var before := GetUserChannelProfile(users, subs, posts, caller, username).value;
      var after := GetUserChannelProfile(users, ToggleSubscriptionRows(subs, nextId, caller, before.id, now), posts, caller, username);
      && after.Ok?
      && after.value.isSubscribed == !before.isSubscribed
      && after.value.subscriberCount == (if before.isSubscribed then before.subscriberCount - 1 else before.subscriberCount + 1)
      && after.value.postCount == before.postCount
  {
    var channel := GetUserChannelProfile(users, subs, posts, caller, username).value.id;
    match FindSubscription(subs, caller, channel)
    case Some(k) =>
      assert ToggleSubscriptionRows(subs, nextId, caller, channel, now) == RemoveAt(subs, k);
      UnsubscribeCounts(subs, k, caller, channel);
    case None =>
      SubscribeCounts(subs, Subscription(nextId, caller, channel, now), caller, channel);
  }
}
