/** The `users` collection: the record, its normalised unique username and e-mail, the
    password hash kept by the pre-save hook, and the two signed tokens. */
module UserModel {
  import opened Common
  import opened Text
  import opened Seqs
  import opened AssetStore

  /** A bcrypt hash. Hashing is taken to be injective, so comparison succeeds exactly for the
      password that was hashed; the plain text is never returned by any view. */
  datatype PasswordHash = Hashed(secret: string)

  /** `isPasswordCorrect`: `bcrypt.compare(candidate, hash)`. */
  predicate IsPasswordCorrect(candidate: string, hash: PasswordHash)
  {
    hash == Hashed(candidate)
  }

  /** The pre-save hook: the stored hash is replaced only when a new plain password was
      assigned to the document before `save`. */
  function PreSaveHash(current: PasswordHash, newPlain: Option<string>): (h: PasswordHash)
    ensures newPlain.None? ==> h == current
    ensures newPlain.Some? ==> forall p :: IsPasswordCorrect(p, h) <==> p == newPlain.value
  {
    match newPlain
    case None => current
    case Some(plain) => Hashed(plain)
  }

  /** A signed JWT, as the payload it carries and the second it was issued in; two tokens
      for the same payload issued in the same second are the same string. */
  datatype Token =
    | AccessToken(sub: Id, email: string, username: string, fullName: string, issuedAt: nat)
    | RefreshToken(sub: Id, issuedAt: nat)

  datatype User = User(
    id: Id,
    username: string,
    fullName: string,
    email: string,
    password: PasswordHash,
    avatar: Asset,
    coverImage: Asset,
    refreshToken: Option<Token>,
    createdAt: nat)

  /** `generateAccessToken`: carries the id, e-mail, username and full name. */
  function AccessTokenFor(u: User, now: nat): Token
  {
    AccessToken(u.id, u.email, u.username, u.fullName, now)
  }

  /** `generateRefreshToken`: carries the id only. */
  function RefreshTokenFor(u: User, now: nat): Token
  {
    RefreshToken(u.id, now)
  }

  /** A user as `select("-password -refreshToken")` returns it. */
  datatype PublicUser = PublicUser(
    id: Id,
    username: string,
    fullName: string,
    email: string,
    avatar: Asset,
    coverImage: Asset,
    createdAt: nat)

  function PublicView(u: User): PublicUser
  {
    PublicUser(u.id, u.username, u.fullName, u.email, u.avatar, u.coverImage, u.createdAt)
  }

  /** The `{_id, avatar, username, fullName}` projection the read views join in. */
  datatype UserSummary = UserSummary(id: Id, username: string, fullName: string, avatar: Asset)

  function Summary(u: User): UserSummary
  {
    UserSummary(u.id, u.username, u.fullName, u.avatar)
  }

  /** `findById`: the position of the user with id `id`. */
  function FindUser(rows: seq<User>, id: Id): (r: Option<nat>)
    ensures r.Some? ==> r.value < |rows| && rows[r.value].id == id
    ensures r.None? <==> forall i :: 0 <= i < |rows| ==> rows[i].id != id
  {
    FindIndex(rows, (u: User) => u.id == id)
  }

  /** A `$lookup` on `users` by id followed by `$first`: the summary of that user, if any. */
  function SummaryOf(rows: seq<User>, id: Id): (r: Option<UserSummary>)
    ensures r.None? <==> forall i :: 0 <= i < |rows| ==> rows[i].id != id
    ensures r.Some? ==> r.value.id == id
  {
    match FindUser(rows, id)
    case None => None
    case Some(k) => Some(Summary(rows[k]))
  }

  /** What the schema's setters leave in a document: a normalised username and e-mail and
      a trimmed full name. */
  predicate StoredForm(u: User)
  {
    IsNormalized(u.username) && IsNormalized(u.email) && IsTrimmed(u.fullName)
  }

  /** Some user already holds this (normalised) username or e-mail. */
  predicate Taken(rows: seq<User>, username: string, email: string)
  {
    exists i :: 0 <= i < |rows| && (rows[i].username == username || rows[i].email == email)
  }

  /** What the schema and its unique indexes guarantee of the collection: ids are distinct and
      below the next one handed out, usernames and e-mails are distinct and stored in their
      normalised form, and full names are stored trimmed. */
  ghost predicate UsersValid(rows: seq<User>, nextId: Id)
  {
    && (forall i :: 0 <= i < |rows| ==> rows[i].id < nextId)
    && (forall i :: 0 <= i < |rows| ==> StoredForm(rows[i]))
    && (forall i, j :: 0 <= i < j < |rows| ==>
          && rows[i].id != rows[j].id
          && rows[i].username != rows[j].username
          && rows[i].email != rows[j].email)
  }

  /** The document `User.create` builds: setters applied, password hashed, assets and token
      at their defaults. */
  function NewUser(id: Id, username: string, fullName: string, password: string, email: string, now: nat): User
  {
    User(id, Normalize(username), Trim(fullName), Normalize(email), Hashed(password),
         NoAsset, NoAsset, None, now)
  }

  /** The `required` validators of the schema, after the setters have run. */
  predicate PassesRequired(username: string, fullName: string, password: string, email: string)
  {
    Normalize(username) != "" && Trim(fullName) != "" && password != "" && Normalize(email) != ""
  }

  /** Appending a user whose username and e-mail are free keeps the collection valid. */
  lemma InsertKeepsValid(rows: seq<User>, nextId: Id, u: User)
    requires UsersValid(rows, nextId)
    requires u.id == nextId && !Taken(rows, u.username, u.email)
    requires StoredForm(u)
    ensures UsersValid(rows + [u], nextId + 1)
  {
    var r := rows + [u];
    forall i, j | 0 <= i < j < |r|
      ensures r[i].id != r[j].id && r[i].username != r[j].username && r[i].email != r[j].email
    {
      if j == |rows| {
        assert r[i] == rows[i];
      }
    }
  }

  class UserTable {
    var rows: seq<User>
    var nextId: Id

    ghost predicate Valid()
      reads this
    {
      UsersValid(rows, nextId)
    }

    constructor ()
      ensures Valid() && rows == [] && nextId == 0
    {
      rows := [];
      nextId := 0;
    }

    /** `User.create`: refused by a `required` validator or, for a taken username or
        e-mail, by a unique index; otherwise the new document is appended. */
    method Create(username: string, fullName: string, password: string, email: string, now: nat)
      returns (r: Result<User>)
      requires Valid()
      modifies this
      ensures Valid()
      ensures !PassesRequired(username, fullName, password, email)
              || Taken(old(rows), Normalize(username), Normalize(email)) ==>
                r == Err(Unhandled) && rows == old(rows) && nextId == old(nextId)
      ensures PassesRequired(username, fullName, password, email)
              && !Taken(old(rows), Normalize(username), Normalize(email)) ==>
                && r == Ok(NewUser(old(nextId), username, fullName, password, email, now))
                && rows == old(rows) + [r.value] && nextId == old(nextId) + 1
    {
      if !PassesRequired(username, fullName, password, email)
         || Taken(rows, Normalize(username), Normalize(email)) {
        r := Err(Unhandled);
      } else {
        var u := NewUser(nextId, username, fullName, password, email, now);
        NormalizedIffFixed(username);
        NormalizedIffFixed(email);
        TrimIsTrimmed(fullName);
        InsertKeepsValid(rows, nextId, u);
        rows := rows + [u];
        nextId := nextId + 1;
        r := Ok(u);
      }
    }

    /** `save` / `findByIdAndUpdate` of the document at position `k`. */
    method Save(k: nat, u: User)
      requires Valid() && k < |rows| && u.id == rows[k].id
      requires UsersValid(rows[k := u], nextId)
      modifies this
      ensures Valid()
      ensures rows == old(rows)[k := u] && nextId == old(nextId)
    {
      rows := rows[k := u];
    }
  }
}
