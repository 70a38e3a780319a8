/** Properties that relate several identity-service calls: credentials written by one
    operation are the ones a later login accepts, the store invariants every transition keeps,
    and what the listing shows after an update or a deletion. */
module AuthProperties {
  import opened Wrappers
  import opened Text
  import opened Dtos
  import opened AuthService

  /** After a successful registration, logging in with the same email and password succeeds,
      and the token's subject is the new id with the stored role. */
  lemma RegisterThenLogin(users: Users, email: string, password: string, name: string, role: Option<string>,
                          freshId: UserId, now: int)
    requires EmailsUnique(users) && freshId !in users
    requires Register(users, email, password, name, role, freshId, now).Success?
    ensures var users' := Register(users, email, password, name, role, freshId, now).value.0;
      && EmailsUnique(users')
      && var r := Login(users', email, password);
      && r.Success?
      && r.value.1.accessToken.payload == Payload(email, freshId, users'[freshId].role)
  {
  }

  /** A password change keeps emails unique, and afterwards the user's email logs in with
      exactly the new password. */
  lemma ChangePasswordThenLogin(users: Users, userId: UserId, currentPassword: string, newPassword: string,
                                attempt: string)
    requires EmailsUnique(users)
    requires ChangePassword(users, userId, currentPassword, newPassword, false).Success?
    ensures var users' := ChangePassword(users, userId, currentPassword, newPassword, false).value.0;
      && EmailsUnique(users')
      && (Login(users', users[userId].email, attempt).Success? <==> attempt == newPassword)
  {
    var users' := ChangePassword(users, userId, currentPassword, newPassword, false).value.0;
    PasswordChangeKeepsEmails(users, users', userId);
  }

  /** An admin reset keeps emails unique, and afterwards the target logs in with exactly the
      new password, whatever the old one was. */
  lemma AdminChangeThenLogin(users: Users, adminId: UserId, userId: UserId, newPassword: string, attempt: string)
    requires EmailsUnique(users)
    requires AdminChangeUserPassword(users, adminId, userId, newPassword, false).Success?
    ensures var users' := AdminChangeUserPassword(users, adminId, userId, newPassword, false).value.0;
      && EmailsUnique(users')
      && (Login(users', users[userId].email, attempt).Success? <==> attempt == newPassword)
  {
    var users' := AdminChangeUserPassword(users, adminId, userId, newPassword, false).value.0;
    PasswordChangeKeepsEmails(users, users', userId);
  }

  /** Changing only one user's digest keeps every email, hence their uniqueness. */
  lemma PasswordChangeKeepsEmails(users: Users, users': Users, userId: UserId)
    requires EmailsUnique(users) && userId in users
    requires users'.Keys == users.Keys
    requires forall other :: other in users && other != userId ==> users'[other] == users[other]
    requires users'[userId].email == users[userId].email
    ensures EmailsUnique(users')
  {
  }

  lemma LoginAfterPasswordChange(users': Users, userId: UserId, newPassword: string, attempt: string)
    requires EmailsUnique(users') && userId in users'
    requires users'[userId].passwordHash == Hash(newPassword)
    ensures Login(users', users'[userId].email, attempt).Success? <==> attempt == newPassword
  {
  }

  /** A read of the user after an update shows the patched fields and the untouched rest. */
  lemma UpdateThenValidate(users: Users, id: UserId, patch: UpdateUserDto)
    requires UpdateUser(users, id, patch).Success?
    ensures var users' := UpdateUser(users, id, patch).value.0;
      && ValidateUser(users', id).Success?
      && ValidateUser(users', id).value.1 == UpdateUser(users, id, patch).value.1
      && ValidateUser(users', id).value.1.email == patch.email.GetOr(users[id].email)
      && ValidateUser(users', id).value.1.name == patch.name.GetOr(users[id].name)
      && ValidateUser(users', id).value.1.role == patch.role.GetOr(users[id].role)
  {
  }

  /** A deleted user can no longer be rehydrated from a token nor appear in any listing, and
      a second deletion fails. */
  lemma DeletedUserIsGone(users: Users, id: UserId, filter: UserFilter)
    requires DeleteUser(users, id).Success?
    ensures var users' := DeleteUser(users, id).value.0;
      && ValidateUser(users', id) == Failure(Unauthorized(UserNotFound))
      && id !in MatchingIds(users', filter)
      && DeleteUser(users', id) == Failure(Unauthorized(UserNotFound))
  {
  }

  /** An absent or empty filter text admits every user, so an empty filter lists everyone. */
  lemma EmptyFilterMatchesAll(users: Users, email: Option<string>, name: Option<string>)
    requires email.None? || email == Some("")
    requires name.None? || name == Some("")
    ensures MatchingIds(users, UserFilter(email, name)) == users.Keys
  {
  }

  /** Searching for a user's own email and name finds that user. */
  lemma UserFoundByOwnEmailAndName(users: Users, id: UserId)
    requires id in users
    ensures id in MatchingIds(users, UserFilter(Some(users[id].email), Some(users[id].name)))
  {
    ContainsItself(users[id].email);
    ContainsItself(users[id].name);
  }

  /** The empty-text shortcut agrees with the substring test itself: filtering is exactly
      "contains the text, when one is given". */
  lemma FieldMatchesIsContains(field: string, query: Option<string>)
    ensures FieldMatches(field, query) <==> query.None? || Contains(field, query.value)
  {
    if query.Some? && query.value == "" {
      EmptyIsContained(field);
    }
  }

  /** Registration through a validated body keeps every stored role among the three known
      ones, and an omitted role is stored as `USER`. */
  lemma ValidatedRegisterKeepsRolesValid(users: Users, dto: RegisterDto, isEmail: string -> bool,
                                         freshId: UserId, now: int)
    requires RolesValid(users) && freshId !in users
    requires ValidRegisterDto(dto, isEmail)
    ensures var r := Register(users, dto.email.value, dto.password.value, dto.name.value, dto.role, freshId, now);
      && (r.Success? ==> RolesValid(r.value.0))
      && (r.Success? && dto.role.None? ==> r.value.0[freshId].role == "USER")
  {
  }

  /** An update through a validated body keeps every stored role among the three known ones. */
  lemma ValidatedUpdateKeepsRolesValid(users: Users, id: UserId, dto: UpdateUserDto, isEmail: string -> bool)
    requires RolesValid(users)
    requires ValidUpdateUserDto(dto, isEmail)
    ensures UpdateUser(users, id, dto).Success? ==> RolesValid(UpdateUser(users, id, dto).value.0)
  {
  }

  /** Without a validated body the role column can receive any text: the service itself
      never checks it. */
  lemma UnvalidatedRoleIsStored(users: Users, freshId: UserId, now: int)
    requires freshId !in users && !EmailInUse(users, "a@b.c")
    ensures var r := Register(users, "a@b.c", "secret", "n", Some("ROOT"), freshId, now);
      r.Success? && !RolesValid(r.value.0)
  {
  }

  /** Nothing stops a registration from choosing `ADMIN`: the new account at once passes the
      admin gate and can reset any existing user's password. */
  lemma SelfRegisteredAdminPassesGate(users: Users, email: string, password: string, name: string,
                                      freshId: UserId, now: int, target: UserId, newPassword: string)
    requires freshId !in users && target in users
    requires !EmailInUse(users, email)
    ensures var r := Register(users, email, password, name, Some("ADMIN"), freshId, now);
      && r.Success?
      && AdminChangeUserPassword(r.value.0, freshId, target, newPassword, false).Success?
  {
  }

  /** Only an existing `ADMIN` passes the gate: a `MODERATOR` or `USER` actor is refused
      with the admin message and nothing changes. */
  lemma NonAdminIsRefused(users: Users, actor: UserId, target: UserId, newPassword: string, storeFault: bool)
    requires actor in users && users[actor].role != "ADMIN"
    ensures AdminChangeUserPassword(users, actor, target, newPassword, storeFault) == Failure(Unauthorized(AdminRequired))
  {
  }

  /** What the catch of the two password operations lets out: a failure is either one of
      the service's own `UnauthorizedException`s, passed through unchanged, or the generic
      internal error, and the latter only when the store or the hashing failed after the
      checks had passed. */
  lemma PasswordFailureKinds(users: Users, actor: UserId, userId: UserId, current: string, newPassword: string,
                             storeFault: bool)
    ensures var r := ChangePassword(users, userId, current, newPassword, storeFault);
      r.Failure? ==>
        || r.error in {Unauthorized(UserNotFound), Unauthorized(WrongCurrentPassword)}
        || (r.error == Internal(ChangeFailed) && storeFault)
    ensures var r := AdminChangeUserPassword(users, actor, userId, newPassword, storeFault);
      r.Failure? ==>
        || r.error in {Unauthorized(AdminRequired), Unauthorized(UserNotFound)}
        || (r.error == Internal(ChangeFailed) && storeFault)
  {
  }
}
