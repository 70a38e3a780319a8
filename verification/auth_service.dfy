/** The identity service: registration, login, user administration and password changes,
    as pure transitions of an in-memory user table keyed by id. bcrypt is an injective `Hash`
    and JWT signing an opaque `Token` over its payload. */
module AuthService {
  import opened Wrappers
  import opened Text
  import opened Paging
  import opened Dtos

  type UserId = string

  /** A password digest. Only `Hash` builds one and only `Compare` inspects one. */
  datatype Digest = Digest(hashed: string)

  /** bcrypt's hash, abstracted: distinct passwords give distinct digests. */
  function Hash(password: string): Digest
  {
    Digest(password)
  }

  /** bcrypt's compare: the candidate password hashes to the stored digest. */
  predicate Compare(password: string, digest: Digest)
  {
    Hash(password) == digest
  }

  /** A stored digest accepts exactly the password it was made from. */
  lemma CompareAcceptsOnlyTheHashedPassword(password: string, candidate: string)
    ensures Compare(candidate, Hash(password)) <==> candidate == password
  {
  }

  datatype User = User(email: string, passwordHash: Digest, name: string, role: string, createdAt: int)

  type Users = map<UserId, User>

  /** A user row without its password: what every operation hands back. */
  datatype PublicUser = PublicUser(id: UserId, email: string, name: string, role: string, createdAt: int)

  function Public(id: UserId, u: User): PublicUser
  {
    PublicUser(id, u.email, u.name, u.role, u.createdAt)
  }

  /** The JWT claims `{ email, sub, role }` and the signed token over them. */
  datatype Payload = Payload(email: string, sub: UserId, role: string)
  datatype Token = Token(payload: Payload)

  datatype LoginSummary = LoginSummary(id: UserId, email: string, role: string)
  datatype LoginResponse = LoginResponse(accessToken: Token, user: LoginSummary)

  datatype PasswordChanged = PasswordChanged(success: bool, message: string, userId: Option<UserId>)

  /** `UnauthorizedException(message)`, or any other failure surfacing as HTTP 500. */
  datatype AuthError = Unauthorized(message: string) | Internal(message: string)

  const EmailExists := "Email already exists"
  const InvalidCredentials := "Invalid credentials"
  const UserNotFound := "User not found"
  const WrongCurrentPassword := "Current password is incorrect"
  const AdminRequired := "Unauthorized - Admin access required"
  const ChangeFailed := "An error occurred while changing the password"
  const EmailTaken := "Unique constraint failed on the fields: (email)"
  /** Whatever a failing hash or database write reports; only the catch above it sees it. */
  const StoreFailure := "database or hashing failure"
  const UserDeleted := "User deleted successfully"
  const PasswordChangedMsg := "Password changed successfully"
  const PasswordChangedByAdminMsg := "Password changed successfully by admin"

  /** The email column is unique: no two rows share an email. */
  ghost predicate EmailsUnique(users: Users)
  {
    forall a, b :: a in users && b in users && users[a].email == users[b].email ==> a == b
  }

  /** Every stored role is one of the three the validators admit. */
  ghost predicate RolesValid(users: Users)
  {
    forall id :: id in users ==> IsRole(users[id].role)
  }

  predicate EmailInUse(users: Users, email: string)
  {
    exists id :: id in users && users[id].email == email
  }

  /** `findUnique({ where: { email } })`, which relies on the email column being unique. */
  function FindByEmail(users: Users, email: string): (r: Option<UserId>)
    requires EmailsUnique(users)
    ensures r.None? <==> !EmailInUse(users, email)
    ensures r.Some? ==> r.value in users && users[r.value].email == email
  {
    if EmailInUse(users, email) then
      var id :| id in users && users[id].email == email;
      Some(id)
    else None
  }

  /** `register(email, password, name, role = 'USER')`. The store hands out `freshId` and
      the clock reads `now`. */
  function Register(users: Users, email: string, password: string, name: string, role: Option<string>,
                    freshId: UserId, now: int): (r: Result<(Users, PublicUser), AuthError>)
    requires freshId !in users
    ensures r.Failure? <==> EmailInUse(users, email)
    ensures r.Failure? ==> r.error == Unauthorized(EmailExists)
    ensures r.Success? ==>
      var (users', out) := r.value;
      && users'.Keys == users.Keys + {freshId}
      && (forall id :: id in users ==> users'[id] == users[id])
      && users'[freshId].email == email && users'[freshId].name == name
      && users'[freshId].passwordHash == Hash(password)
      && users'[freshId].role == (if role.Some? then role.value else UserRole)
      && users'[freshId].createdAt == now
      && out == PublicUser(freshId, email, name, users'[freshId].role, now)
    ensures r.Success? && EmailsUnique(users) ==> EmailsUnique(r.value.0)
  {
    if EmailInUse(users, email) then Failure(Unauthorized(EmailExists))
    else
      var u := User(email, Hash(password), name, role.GetOr(UserRole), now);
      Success((users[freshId := u], Public(freshId, u)))
  }

  /** `login(email, password)`: the unknown-email and wrong-password failures are identical. */
  function Login(users: Users, email: string, password: string): (r: Result<(Users, LoginResponse), AuthError>)
    requires EmailsUnique(users)
    ensures r.Success? <==> exists id :: id in users && users[id].email == email && Compare(password, users[id].passwordHash)
    ensures r.Failure? ==> r.error == Unauthorized(InvalidCredentials)
    ensures r.Success? ==>
      var (users', out) := r.value;
      && users' == users
      && out.user.id in users
      && var u := users[out.user.id];
      && u.email == email
      && out.accessToken == Token(Payload(u.email, out.user.id, u.role))
      && out.user == LoginSummary(out.user.id, u.email, u.role)
  {
    match FindByEmail(users, email)
    case None => Failure(Unauthorized(InvalidCredentials))
    case Some(id) =>
      var u := users[id];
      if !Compare(password, u.passwordHash) then Failure(Unauthorized(InvalidCredentials))
      else
        var payload := Payload(u.email, id, u.role);
        Success((users, LoginResponse(Token(payload), LoginSummary(id, u.email, u.role))))
  }

  /** `validateUser(id)`: the token subject's public record. */
  function ValidateUser(users: Users, id: UserId): (r: Result<(Users, PublicUser), AuthError>)
    ensures r.Failure? <==> id !in users
    ensures r.Failure? ==> r.error == Unauthorized(UserNotFound)
    ensures r.Success? ==>
      && r.value.0 == users
      && r.value.1.id == id
      && r.value.1.email == users[id].email
      && r.value.1.name == users[id].name
      && r.value.1.role == users[id].role
      && r.value.1.createdAt == users[id].createdAt
  {
    if id !in users then Failure(Unauthorized(UserNotFound))
    else Success((users, Public(id, users[id])))
  }

  /** The `email`/`name` filters of the user listing; a missing or empty text matches all. */
  datatype UserFilter = UserFilter(email: Option<string>, name: Option<string>)

  predicate FieldMatches(field: string, query: Option<string>)
  {
    query.None? || query.value == "" || Contains(field, query.value)
  }

  predicate Matches(u: User, filter: UserFilter)
  {
    FieldMatches(u.email, filter.email) && FieldMatches(u.name, filter.name)
  }

  function MatchingIds(users: Users, filter: UserFilter): set<UserId>
  {
    set id | id in users && Matches(users[id], filter)
  }

  function CreatedAt(users: Users): map<UserId, int>
  {
    map id | id in users :: users[id].createdAt
  }

  datatype UserPage = UserPage(data: seq<PublicUser>, total: nat, page: int, totalPages: nat)

  /** `getAllUsers(page, limit, filter)`: one page of the matching users, newest first, with
      the number of matches and of pages. `order` is the full listing the page is cut from. */
  method GetAllUsers(users: Users, page: int, limit: int, filter: UserFilter)
    returns (r: UserPage, ghost order: seq<UserId>)
    requires page >= 1 && limit >= 1
    ensures NewestFirst(CreatedAt(users), MatchingIds(users, filter), order)
    ensures var ids := Page(order, page, limit);
      && |r.data| == |ids|
      && forall i :: 0 <= i < |ids| ==> ids[i] in users && r.data[i] == Public(ids[i], users[ids[i]])
    ensures forall i :: 0 <= i < |r.data| ==> r.data[i].id in users && Matches(users[r.data[i].id], filter)
    ensures |r.data| <= limit
    ensures r.total == |MatchingIds(users, filter)|
    ensures r.page == page
    ensures (r.totalPages - 1) * limit < r.total <= r.totalPages * limit
  {
    var ids := MatchingIds(users, filter);
    var o := NewestFirstOrder(CreatedAt(users), ids);
    order := o;
    NewestFirstLength(CreatedAt(users), ids, o);
    var pageIds := Page(o, page, limit);
    assert forall i :: 0 <= i < |pageIds| ==> pageIds[i] in ids by {
      forall i | 0 <= i < |pageIds| ensures pageIds[i] in ids {
        assert pageIds[i] == o[Skip(page, limit) + i];
      }
    }
    var data := seq(|pageIds|, i requires 0 <= i < |pageIds| => Public(pageIds[i], users[pageIds[i]]));
    r := UserPage(data, |ids|, page, CeilDiv(|ids|, limit));
  }

  /** `updateUser(id, dto)`: writes the supplied fields of one user. An email that another
      user already has violates the unique column, an error the service does not catch. */
  function UpdateUser(users: Users, id: UserId, patch: UpdateUserDto): (r: Result<(Users, PublicUser), AuthError>)
    ensures id !in users <==> r == Failure(Unauthorized(UserNotFound))
    ensures r.Failure? && id in users <==>
      id in users && patch.email.Some? && exists other :: other in users && other != id && users[other].email == patch.email.value
    ensures r.Failure? && id in users ==> r.error == Internal(EmailTaken)
    ensures r.Success? ==>
      var (users', out) := r.value;
      && users'.Keys == users.Keys
      && (forall other :: other in users && other != id ==> users'[other] == users[other])
      && users'[id].email == (if patch.email.Some? then patch.email.value else users[id].email)
      && users'[id].name == (if patch.name.Some? then patch.name.value else users[id].name)
      && users'[id].role == (if patch.role.Some? then patch.role.value else users[id].role)
      && users'[id].passwordHash == users[id].passwordHash
      && users'[id].createdAt == users[id].createdAt
      && out == Public(id, users'[id])
    ensures r.Success? && EmailsUnique(users) ==> EmailsUnique(r.value.0)
  {
    if id !in users then Failure(Unauthorized(UserNotFound))
    else if patch.email.Some? && exists other :: other in users && other != id && users[other].email == patch.email.value then
      Failure(Internal(EmailTaken))
    else
      var u := users[id];
      var u' := u.(email := patch.email.GetOr(u.email), name := patch.name.GetOr(u.name), role := patch.role.GetOr(u.role));
      Success((users[id := u'], Public(id, u')))
  }

  /** `deleteUser(id)`. */
  function DeleteUser(users: Users, id: UserId): (r: Result<(Users, string), AuthError>)
    ensures r.Failure? <==> id !in users
    ensures r.Failure? ==> r.error == Unauthorized(UserNotFound)
    ensures r.Success? ==>
      && r.value.0.Keys == users.Keys - {id}
      && (forall other :: other in r.value.0 ==> r.value.0[other] == users[other])
      && r.value.1 == UserDeleted
    ensures r.Success? && EmailsUnique(users) ==> EmailsUnique(r.value.0)
  {
    if id !in users then Failure(Unauthorized(UserNotFound))
    else Success((users - {id}, UserDeleted))
  }

  /** The `catch` of both password operations: an `UnauthorizedException` is rethrown as is,
      anything else becomes a generic internal error. */
  function RethrowAsInternal<T>(r: Result<T, AuthError>): (r': Result<T, AuthError>)
    ensures r.Success? ==> r' == r
    ensures r.Failure? && r.error.Unauthorized? ==> r' == r
    ensures r.Failure? && !r.error.Unauthorized? ==> r' == Failure(Internal(ChangeFailed))
  {
    match r
    case Failure(Internal(_)) => Failure(Internal(ChangeFailed))
    case _ => r
  }

  /** Replaces one user's digest with `Hash(newPassword)`. */
  function SetPassword(users: Users, id: UserId, newPassword: string): (users': Users)
    requires id in users
    ensures users'.Keys == users.Keys
    ensures forall other :: other in users && other != id ==> users'[other] == users[other]
    ensures users'[id] == users[id].(passwordHash := Hash(newPassword))
  {
    users[id := users[id].(passwordHash := Hash(newPassword))]
  }

  /** `changePassword(userId, currentPassword, newPassword)`. `storeFault` is a failure of
      the hashing or of the write that follows the checks; the catch turns it into the generic
      internal error, and nothing is written. */
  function ChangePassword(users: Users, userId: UserId, currentPassword: string, newPassword: string,
                          storeFault: bool)
    : (r: Result<(Users, PasswordChanged), AuthError>)
    ensures r.Success? <==> userId in users && Compare(currentPassword, users[userId].passwordHash) && !storeFault
    ensures userId !in users ==> r == Failure(Unauthorized(UserNotFound))
    ensures userId in users && !Compare(currentPassword, users[userId].passwordHash) ==>
      r == Failure(Unauthorized(WrongCurrentPassword))
    ensures userId in users && Compare(currentPassword, users[userId].passwordHash) && storeFault ==>
      r == Failure(Internal(ChangeFailed))
    ensures r.Success? ==>
      && r.value.0.Keys == users.Keys
      && (forall other :: other in users && other != userId ==> r.value.0[other] == users[other])
      && r.value.0[userId] == users[userId].(passwordHash := Hash(newPassword))
      && r.value.1 == PasswordChanged(true, PasswordChangedMsg, None)
  {
    RethrowAsInternal(
      if userId !in users then Failure(Unauthorized(UserNotFound))
      else if !Compare(currentPassword, users[userId].passwordHash) then Failure(Unauthorized(WrongCurrentPassword))
      else if storeFault then Failure(Internal(StoreFailure))
      else Success((SetPassword(users, userId, newPassword), PasswordChanged(true, PasswordChangedMsg, None))))
  }

  /** `adminChangeUserPassword(adminId, userId, newPassword)`: the actor must exist with role
      exactly `ADMIN`; the target's current password is not asked for. `storeFault` is as in
      `ChangePassword`. */
  function AdminChangeUserPassword(users: Users, adminId: UserId, userId: UserId, newPassword: string,
                                   storeFault: bool)
    : (r: Result<(Users, PasswordChanged), AuthError>)
    ensures r.Success? <==> adminId in users && users[adminId].role == Admin && userId in users && !storeFault
    ensures !(adminId in users && users[adminId].role == Admin) ==> r == Failure(Unauthorized(AdminRequired))
    ensures adminId in users && users[adminId].role == Admin && userId !in users ==>
      r == Failure(Unauthorized(UserNotFound))
    ensures adminId in users && users[adminId].role == Admin && userId in users && storeFault ==>
      r == Failure(Internal(ChangeFailed))
    ensures r.Success? ==>
      && r.value.0.Keys == users.Keys
      && (forall other :: other in users && other != userId ==> r.value.0[other] == users[other])
      && r.value.0[userId] == users[userId].(passwordHash := Hash(newPassword))
      && r.value.1 == PasswordChanged(true, PasswordChangedByAdminMsg, Some(userId))
  {
    RethrowAsInternal(
      if adminId !in users || users[adminId].role != Admin then Failure(Unauthorized(AdminRequired))
      else if userId !in users then Failure(Unauthorized(UserNotFound))
      else if storeFault then Failure(Internal(StoreFailure))
      else Success((SetPassword(users, userId, newPassword), PasswordChanged(true, PasswordChangedByAdminMsg, Some(userId)))))
  }
}
