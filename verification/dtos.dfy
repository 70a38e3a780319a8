/** The request bodies and the class-validator rules the global validation pipe applies to
    them before a service runs. A field is `None` when the client left the property out.
    The pipe converts primitive values to the declared `string` type before validating, so
    `@IsString()` is carried by the field type; `@IsEmail()` is the `isEmail` parameter. */
module Dtos {
  import opened Wrappers

  /** The role names `@IsIn(['ADMIN', 'MODERATOR', 'USER'])` admits. */
  const Admin := "ADMIN"
  const Moderator := "MODERATOR"
  const UserRole := "USER"

  predicate IsRole(r: string)
  {
    r == Admin || r == Moderator || r == UserRole
  }

  /** `@IsNotEmpty()`: present and not the empty string. */
  predicate IsNotEmpty(f: Option<string>)
  {
    f.Some? && f.value != ""
  }

  /** The variation selectors U+FE0E and U+FE0F, which select a text or emoji presentation
      of the character before them. */
  predicate IsVariationSelector(c: char)
  {
    c == '\U{FE0E}' || c == '\U{FE0F}'
  }

  /** The length validator.js's `isLength` measures: code points (a surrogate pair counts
      once), leaving out the variation selectors. */
  function VisibleLength(s: string): (n: nat)
    ensures n <= |s|
    ensures n == |s| <==> forall i :: 0 <= i < |s| ==> !IsVariationSelector(s[i])
  {
    if |s| == 0 then 0
    else (if IsVariationSelector(s[0]) then 0 else 1) + VisibleLength(s[1..])
  }

  /** The count is additive, so a variation selector appended to a string adds nothing. */
  lemma {:induction false} VisibleLengthAppend(a: string, b: string)
    ensures VisibleLength(a + b) == VisibleLength(a) + VisibleLength(b)
    decreases |a|
  {
    if |a| > 0 {
      assert (a + b)[1..] == a[1..] + b;
      VisibleLengthAppend(a[1..], b);
    } else {
      assert a + b == b;
    }
  }

  /** `@MinLength(n)`: a string of at least `n` characters as `isLength` counts them (an
      absent property fails). */
  predicate MinLength(f: Option<string>, n: nat)
  {
    f.Some? && VisibleLength(f.value) >= n
  }

  /** `@IsOptional()` followed by `rule`: absent, or present and satisfying `rule`. */
  predicate Optional(f: Option<string>, rule: string -> bool)
  {
    f.None? || rule(f.value)
  }

  datatype RegisterDto = RegisterDto(
    email: Option<string>,
    password: Option<string>,
    name: Option<string>,
    role: Option<string>)

  predicate ValidRegisterDto(d: RegisterDto, isEmail: string -> bool)
  {
    && d.email.Some? && isEmail(d.email.value)
    && IsNotEmpty(d.password) && MinLength(d.password, 6)
    && IsNotEmpty(d.name)
    && Optional(d.role, IsRole)
  }

  /** What a register body that passes validation guarantees: an email in the accepted
      format, a password of at least six characters, a non-empty name, and a known role
      whenever one is given. */
  lemma RegisterDtoRules(d: RegisterDto, isEmail: string -> bool)
    ensures ValidRegisterDto(d, isEmail) <==>
      && d.email.Some? && isEmail(d.email.value)
      && d.password.Some? && VisibleLength(d.password.value) >= 6
      && d.name.Some? && d.name.value != ""
      && (d.role.Some? ==> d.role.value in {"ADMIN", "MODERATOR", "USER"})
  {
  }

  /** A partial patch of a user: every property is optional. */
  datatype UpdateUserDto = UpdateUserDto(
    email: Option<string>,
    name: Option<string>,
    role: Option<string>)

  predicate ValidUpdateUserDto(d: UpdateUserDto, isEmail: string -> bool)
  {
    && Optional(d.email, isEmail)
    && Optional(d.role, IsRole)
  }

  /** The empty patch passes, any name is accepted, and a present email or role must be
      well-formed. */
  lemma UpdateUserDtoRules(d: UpdateUserDto, isEmail: string -> bool)
    ensures ValidUpdateUserDto(UpdateUserDto(None, None, None), isEmail)
    ensures ValidUpdateUserDto(d, isEmail) <==>
      && (d.email.Some? ==> isEmail(d.email.value))
      && (d.role.Some? ==> d.role.value in {"ADMIN", "MODERATOR", "USER"})
  {
  }

  datatype ChangePasswordDto = ChangePasswordDto(
    currentPassword: Option<string>,
    newPassword: Option<string>)

  predicate ValidChangePasswordDto(d: ChangePasswordDto)
  {
    && IsNotEmpty(d.currentPassword) && MinLength(d.currentPassword, 6)
    && IsNotEmpty(d.newPassword) && MinLength(d.newPassword, 6)
  }

  datatype AdminChangePasswordDto = AdminChangePasswordDto(newPassword: Option<string>)

  predicate ValidAdminChangePasswordDto(d: AdminChangePasswordDto)
  {
    IsNotEmpty(d.newPassword) && MinLength(d.newPassword, 6)
  }

  /** For the admin reset, `@IsNotEmpty()` adds nothing to `@MinLength(6)`: validity is
      exactly "present with at least six characters", so a six-character password is accepted
      and a five-character or missing one is not, nor five characters and a variation selector. */
  lemma AdminChangePasswordDtoRules(d: AdminChangePasswordDto)
    ensures ValidAdminChangePasswordDto(d) <==> d.newPassword.Some? && VisibleLength(d.newPassword.value) >= 6
    ensures ValidAdminChangePasswordDto(AdminChangePasswordDto(Some("abcdef")))
    ensures !ValidAdminChangePasswordDto(AdminChangePasswordDto(Some("abcde")))
    ensures !ValidAdminChangePasswordDto(AdminChangePasswordDto(Some("abcde" + ['\U{FE0F}'])))
    ensures !ValidAdminChangePasswordDto(AdminChangePasswordDto(None))
  {
    VisibleLengthAppend("abcde", ['\U{FE0F}']);
  }

  /** Both passwords of a self-service change must be present with at least six characters;
      the `@IsNotEmpty()` rules are implied by that. */
  lemma ChangePasswordDtoRules(d: ChangePasswordDto)
    ensures ValidChangePasswordDto(d) <==>
      && d.currentPassword.Some? && VisibleLength(d.currentPassword.value) >= 6
      && d.newPassword.Some? && VisibleLength(d.newPassword.value) >= 6
  {
  }

  datatype CreateImageDto = CreateImageDto(name: Option<string>, description: Option<string>)

  /** `description` carries `@IsString()` without `@IsOptional()`, so it must be present even
      though the class types it as optional; the empty string is still a string. */
  predicate ValidCreateImageDto(d: CreateImageDto)
  {
    IsNotEmpty(d.name) && d.description.Some?
  }

  /** A body without a description is rejected, and one with an empty description passes. */
  lemma CreateImageDtoRules(d: CreateImageDto)
    ensures ValidCreateImageDto(d) ==> d.name.Some? && d.name.value != "" && d.description.Some?
    ensures d.description.None? ==> !ValidCreateImageDto(d)
    ensures d.name.Some? && d.name.value != "" && d.description == Some("") ==> ValidCreateImageDto(d)
  {
  }
}
