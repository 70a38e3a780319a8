# Image manager backend — a Dafny model of its services

The repository is a small NestJS backend: an identity service (`AuthService`) that registers
users, logs them in with bcrypt-checked passwords and signed JWTs, lists, edits and deletes
users and changes passwords; and an image service (`ImagesService`) that records uploaded
files under a public URL, lists them page by page, edits their metadata and deletes the
record, then tries to unlink its file (see "## Findings"). Request bodies pass class-validator rules before either service
runs.

This project models those two services as pure transitions over immutable stores, and the
request-body rules as predicates:

- `AuthService` (auth_service.dfy): the user table is a `map<UserId, User>`. bcrypt is an
  injective `Hash` with `Compare(pw, h) == (Hash(pw) == h)`. A JWT is the opaque
  `Token(payload)`. Each operation returns `Result<(Users, Output), AuthError>`. The errors are
  `Unauthorized(message)`, which is `UnauthorizedException`, and `Internal(message)`, which is
  any other failure surfacing as HTTP 500.
- `ImagesService` (images_service.dfy): the image table is a `map<ImageId, Image>`. A
  directory is a `set<string>` of file names, and `fs.unlink` is a removal from one that may
  fail. Two directories named `uploads` are in play (`Disk`). Multer writes uploads to the
  first and the server publishes it. `deleteImage` unlinks in the second; see "## Findings".
- `Dtos` (dtos.dfy): one validity predicate per request body. `@IsEmail()` is an
  uninterpreted parameter `isEmail`.
- `Paging` (paging.dfy) holds what both list operations share: `skip = (page - 1) * limit`,
  `take = limit`, a newest-first ordering by `createdAt`, and `totalPages` as an integer
  ceiling.
- `Text` (text.dfy) holds the substring test behind Prisma's `contains`, and JavaScript's
  `split('/')` with `pop()`.
- auth_properties.dfy and images_properties.dfy relate several calls: login after
  registration or a password change, save followed by delete, and the store invariants.

The email column is unique. `AuthService.EmailsUnique` states this as an invariant. Every
operation that writes the table keeps it. `AuthService.Login` requires it, because
`findUnique` on the email column relies on it.

The database's fresh ids and the clock are parameters (`freshId`, `now`). Each operation that
creates a row requires `freshId` not to be in use already, because the database never reuses
a key. The global validation pipe (src/main.ts:28-36) turns primitive body values into the
declared `string` type before validating. So `@IsString()` is carried by the field type, and a
body field is `None` exactly when the client left it out.

Facts about the code that the model keeps, including where a reader might expect otherwise:

- A duplicate email at registration fails with `Unauthorized("Email already exists")`.
- An absent user fails with `Unauthorized("User not found")`.
- `saveImage` stores no owner. The image service scopes nothing by role and has no single-image
  read. Its listing reports `total`, `page` and `totalPages`, and nothing more.
- `deleteImage` deletes the record first and only then unlinks the file.
- `deleteImage` returns only a message.
- The password operations turn every failure other than their own `UnauthorizedException`s
  into one generic internal error. The model makes a failure of the hashing or the write a
  parameter (`storeFault`).

## Model

| member | source | states |
|---|---|---|
| `AuthService.Register` | src/auth/auth.service.ts:19-46 | fails exactly when the email is already in use, with "Email already exists" and no store change; otherwise adds one row under the fresh id, storing `Hash(password)`, the role given or `USER`, and returns the public record; keeps emails unique |
| `AuthService.FindByEmail` | src/auth/auth.service.ts:49-51 | with unique emails, finds the one user holding an email, or reports that none does |
| `AuthService.CompareAcceptsOnlyTheHashedPassword` | src/auth/auth.service.ts:57 | a stored digest accepts exactly the password it was made from |
| `AuthService.Login` | src/auth/auth.service.ts:48-72 | succeeds iff some user has the email and the password compares true; unknown email and wrong password give the same "Invalid credentials" error; on success the store is unchanged and token payload and summary carry that user's id, email and role |
| `AuthService.ValidateUser` | src/auth/auth.service.ts:74-85 | fails with "User not found" iff the id is absent; otherwise returns the row without the password: id, email, name, role and creation time (`updatedAt` is not modelled); store unchanged |
| `AuthService.GetAllUsers` | src/auth/auth.service.ts:87-130 | returns at most `limit` users cut at offset `(page-1)*limit` from a newest-first listing of exactly the users matching both filters; `total` counts every match; `totalPages` is the least page count holding `total` |
| `AuthService.UpdateUser` | src/auth/auth.service.ts:132-155 | absent id fails with "User not found"; an email held by another user fails with an internal error (unique column); otherwise only the supplied fields of that one user change, password and other users untouched; keeps emails unique |
| `AuthService.DeleteUser` | src/auth/auth.service.ts:157-168 | absent id fails with "User not found"; otherwise removes exactly that key, leaves every other row as it was, keeps emails unique, and reports "User deleted successfully" |
| `AuthService.RethrowAsInternal` | src/auth/auth.service.ts:206-214 | an Unauthorized failure and a success pass unchanged; any other failure becomes the generic internal error "An error occurred while changing the password" |
| `AuthService.SetPassword` | src/auth/auth.service.ts:194-200 | replaces one user's digest with `Hash(newPassword)` and changes nothing else |
| `AuthService.ChangePassword` | src/auth/auth.service.ts:170-215 | succeeds iff the user exists, the current password compares true and neither the hashing nor the write fails; the two check failures carry their own Unauthorized messages; a failure after the checks is the generic internal error; on success only that user's digest becomes `Hash(newPassword)` |
| `AuthService.AdminChangeUserPassword` | src/auth/auth.service.ts:217-264 | succeeds iff the actor exists with role exactly `ADMIN`, the target exists and neither the hashing nor the write fails; no current password is asked; a failure after the checks is the generic internal error; only the target's digest changes and the result echoes `userId` |
| `AuthProperties.RegisterThenLogin` | src/auth/auth.service.ts:33-70 | after a registration, login with the same email and password succeeds and the token's subject is the new id |
| `AuthProperties.ChangePasswordThenLogin` | src/auth/auth.service.ts:194-200 | after a password change emails stay unique and the user's email logs in with exactly the new password |
| `AuthProperties.AdminChangeThenLogin` | src/auth/auth.service.ts:242-248 | after an admin reset emails stay unique and the target logs in with exactly the new password |
| `AuthProperties.PasswordChangeKeepsEmails` | src/auth/auth.service.ts:197-200 | rewriting only one user's digest keeps emails unique |
| `AuthProperties.LoginAfterPasswordChange` | src/auth/auth.service.ts:57-61 | once a user's digest is `Hash(p)`, login with that user's email succeeds for `p` and for no other password |
| `AuthProperties.UpdateThenValidate` | src/auth/auth.service.ts:141-154 | reading a user after an update shows the patched fields and the old values of the others |
| `AuthProperties.DeletedUserIsGone` | src/auth/auth.service.ts:157-168 | after a deletion the user cannot be validated, matches no listing filter, and a second deletion fails |
| `AuthProperties.EmptyFilterMatchesAll` | src/auth/auth.service.ts:94-99 | when the email filter and the name filter are each absent or empty, independently of each other, every user is listed |
| `AuthProperties.FieldMatchesIsContains` | src/auth/auth.service.ts:96-97 | a filter clause holds iff no text is given or the field contains it (the empty-text shortcut agrees with the substring test) |
| `AuthProperties.UserFoundByOwnEmailAndName` | src/auth/auth.service.ts:94-99 | filtering by a user's own email and name lists that user |
| `AuthProperties.ValidatedRegisterKeepsRolesValid` | src/auth/dto/register.dto.ts:22-25 | registration through a validated body keeps every stored role among ADMIN, MODERATOR, USER, and an omitted role is stored as USER |
| `AuthProperties.ValidatedUpdateKeepsRolesValid` | src/auth/dto/update-user.dto.ts:12-15 | an update through a validated body keeps every stored role among the three |
| `AuthProperties.UnvalidatedRoleIsStored` | src/auth/auth.service.ts:19-24 | the service itself stores any role text it is given |
| `AuthProperties.SelfRegisteredAdminPassesGate` | src/auth/auth.service.ts:228-230 | an account registered with role ADMIN at once passes the admin gate for any existing target |
| `AuthProperties.NonAdminIsRefused` | src/auth/auth.service.ts:228-230 | an existing actor whose role is not ADMIN is refused with "Unauthorized - Admin access required" |
| `AuthProperties.PasswordFailureKinds` | src/auth/auth.service.ts:206-214 | a failed password operation reports one of its own Unauthorized messages, or the generic internal error, and the latter only when the hashing or the write failed |
| `Paging.CeilDiv` | src/auth/auth.service.ts:128 | `(pages-1)*limit < total <= pages*limit`: the integer ceiling of `total / limit` |
| `Paging.Page` | src/auth/auth.service.ts:92-105 | at most `limit` elements, each the element `Skip(page, limit) + i` of the listing, as many as remain up to `limit`, none past the end |
| `Paging.PageOfIndex` | src/auth/auth.service.ts:92 | element `i` of a listing appears on page `i / limit + 1` at position `i % limit` |
| `Paging.TotalPagesAreTheNonEmptyPages` | src/auth/auth.service.ts:128 | a page is non-empty iff its number is at most `totalPages` |
| `Paging.Insert` | src/auth/auth.service.ts:119 | inserting into a newest-first listing keeps it newest-first and adds exactly that key |
| `Paging.NewestFirstOrder` | src/api/images/images.service.ts:35 | lists every key of the set exactly once, no key before an older one |
| `Paging.NewestFirstLength` | src/auth/auth.service.ts:119 | a newest-first listing has as many entries as keys, all from the set |
| `Text.EmptyIsContained` | src/auth/auth.service.ts:96-97 | the empty text is contained in every string |
| `Text.IndexOf` | src/api/images/images.service.ts:62 | finds the first occurrence of the separator |
| `Text.Split` | src/api/images/images.service.ts:62 | `split` gives a non-empty list of parts, none containing the separator |
| `Text.SplitJoin` | src/api/images/images.service.ts:62 | joining the parts of a split with the separator gives back the input, so no character is lost |
| `Text.LastSegment` | src/api/images/images.service.ts:62 | `pop()` of the split contains no separator |
| `Text.SplitAppend` | src/api/images/images.service.ts:62 | appending a separator and a separator-free tail to a string adds exactly that tail as a last part |
| `Text.LastSegmentOfAppend` | src/api/images/images.service.ts:62 | the last segment of `p + "/" + f` is `f` iff `f` has no `/` |
| `ImagesService.ImageUrl` | src/api/images/images.service.ts:16 | the URL is the fixed prefix followed by the file name |
| `ImagesService.UrlFilenameRoundTrip` | src/api/images/images.service.ts:16-63 | the file name recovered from a stored URL is the saved name iff that name has no `/` |
| `ImagesService.KeptDescription` | src/api/images/images.service.ts:21-23 | a description is kept iff it is present and non-empty |
| `ImagesService.SaveImage` | src/api/images/images.service.ts:13-27 | fails iff the file or its name is missing, creating nothing; otherwise adds one row with the given name, URL prefix plus file name, and the description only when non-empty |
| `ImagesService.GetAllImages` | src/api/images/images.service.ts:29-46 | at most `limit` rows cut at offset `(page-1)*limit` from a newest-first listing of all images; `total` counts all; `totalPages` is the integer ceiling |
| `ImagesService.UpdateImage` | src/api/images/images.service.ts:48-53 | fails iff the id is absent; otherwise only the supplied fields of that image change, URL and other images untouched |
| `ImagesService.Unlink` | src/api/images/images.service.ts:64-66 | succeeds iff the file is present and no fault occurs, and then removes just that name |
| `ImagesService.DeleteRecordAndUnlink` | src/api/images/images.service.ts:55-67 | fails iff the id is absent; otherwise the record is removed and at most the file named by the URL's last segment leaves the given directory, exactly that file unless the unlink faults |
| `ImagesService.DeleteImage` | src/api/images/images.service.ts:55-68 | as written: fails iff the id is absent; otherwise the record is removed, the uploads directory is untouched, at most the last-segment name leaves the build-output directory, and the message is always "Image deleted successfully" |
| `ImagesService.DeleteImageIntended` | src/api/images/images.service.ts:55-68 | corrected: the same, but the unlink is in the uploads directory and the build-output directory is untouched |
| `ImagesProperties.SaveThenDeleteLeavesUpload` | src/api/images/images.service.ts:13-68 | as written, deleting a fresh upload restores the record store but leaves the uploaded file in the published uploads directory |
| `ImagesProperties.SaveThenDelete` | src/api/images/images.service.ts:13-68 | with the corrected deletion, deleting a fresh upload restores the record store and removes exactly the uploaded file from the uploads directory |
| `ImagesProperties.DeleteWithMissingFile` | src/api/images/images.service.ts:64-67 | a file already gone from the directory a deletion unlinks in does not stop it: record removed, disk unchanged, same message |
| `ImagesProperties.DeleteTwiceFails` | src/api/images/images.service.ts:56 | a second deletion of the same id fails, as written and corrected |
| `ImagesProperties.ValidatedDescriptionIsStoredWhenNonEmpty` | src/api/images/dto/create-image.dto.ts:8-9 | a validated create body always has a description; an empty one is dropped at save, a non-empty one kept |
| `ImagesProperties.UpdateKeepsFile` | src/api/images/images.service.ts:48-53 | an update does not change which file a later deletion unlinks |
| `Dtos.VisibleLength` | src/auth/dto/register.dto.ts:15 | the length `@MinLength` measures: at most the number of code points, and equal to it iff no variation selector U+FE0E or U+FE0F occurs |
| `Dtos.VisibleLengthAppend` | src/auth/dto/register.dto.ts:15 | that length is additive over concatenation |
| `Dtos.RegisterDtoRules` | src/auth/dto/register.dto.ts:10-26 | a register body is valid iff it has an accepted email, a password of at least six characters, a non-empty name, and a known role when one is given |
| `Dtos.UpdateUserDtoRules` | src/auth/dto/update-user.dto.ts:3-16 | the empty patch is valid; a patch is valid iff a present email is accepted and a present role is known |
| `Dtos.ChangePasswordDtoRules` | src/auth/dto/change-password.dto.ts:3-13 | valid iff both passwords are present with at least six characters |
| `Dtos.AdminChangePasswordDtoRules` | src/auth/dto/admin-change-password.dto.ts:3-8 | valid iff the new password is present with at least six characters as `isLength` counts them; six is accepted, five, five plus a variation selector, or missing is not |
| `Dtos.CreateImageDtoRules` | src/api/images/dto/create-image.dto.ts:3-10 | a valid body has a non-empty name and a description; a missing description is rejected and an empty one passes |

## Findings

| source | as written | input that shows it | evidently intended | confidence | as-written member | corrected member |
|---|---|---|---|---|---|---|
| src/api/images/images.service.ts:57-63 | unlinks `join(__dirname, '..', '..', 'uploads', name)`; from the compiled `dist/api/images` that is `<root>/dist/uploads/<name>` | any upload, with the server started as `dist/main.js` (ecosystem.config.js:6) from the project root: Multer wrote `<root>/uploads/<name>` (src/api/images/images.controller.ts:32), which src/main.ts:13-19 publishes; `DELETE` removes the record, the unlink fails and is swallowed, and the file stays published | unlink the file in the uploads directory it was written to | medium; not executed; it rests on the build layout and working directory named here | `ImagesService.DeleteImage`, shown by `ImagesProperties.SaveThenDeleteLeavesUpload` | `ImagesService.DeleteImageIntended`, proved by `ImagesProperties.SaveThenDelete` |

## Left out

- Controllers, guards and query-string parsing (src/auth/auth.controller.ts, src/api/images/images.controller.ts) are HTTP boundary code. This includes the radix-12 `parseInt` of the image listing's `page` and `limit`.
- Multer's generated file name (`Date.now()` and `Math.random()`) is nondeterministic. The lemmas take it as a parameter with no `/` in it.
- `AuthService.GetAllUsers`: requires `page >= 1` and `limit >= 1`. A negative skip or take would be rejected or reinterpreted by the database. `_count.images` is not modelled, because `saveImage` stores no owner.
- `ImagesService.GetAllImages`: requires `page >= 1` and `limit >= 1`, for the same reason.
- `ImagesService.SaveImage`: requires the create body's `name` to be present, as the service's parameter type declares. What the database does with a missing name is not modelled.
- bcrypt's salt and cost factor 10 are left out. `Hash` is deterministic and injective.
- `AuthService.CompareAcceptsOnlyTheHashedPassword`: bcrypt reads only the first 72 bytes of the UTF-8 password, and no request body caps its length. Two longer passwords that agree in those bytes compare equal. So this lemma, and "exactly the new password" in `AuthProperties.LoginAfterPasswordChange`, `AuthProperties.ChangePasswordThenLogin` and `AuthProperties.AdminChangeThenLogin`, hold only for passwords of at most 72 UTF-8 bytes.
- JWT signing keys and expiry are left out. A token is its payload.
- Prisma is left out: connection, `PrismaService`, and every database failure other than the email unique constraint in `updateUser` and the missing record in `updateImage` and `deleteImage`. A failure of the hashing or the write in the two password operations is the `storeFault` parameter. A failure of their lookups, which the same catch turns into the generic internal error, is not modelled separately.
- The text of the internal error that `updateUser` raises on a taken email is Prisma's message, and is only approximated.
- `Promise.all` over two reads is modelled as two reads of one snapshot. Concurrency is not modelled.
- Prisma's `contains` is modelled as a case-sensitive substring test. Case folding depends on the database's collation.
- `AuthService.Register`: whether an email is already taken is decided by `findUnique` and the unique index, that is by the database's collation. The model compares code points exactly, so two emails that differ only in case count as different.
- `AuthService.Login`: the lookup by email follows the same collation. The model compares code points exactly.
- `AuthService.UpdateUser`: whether another user already holds the new email is decided by the unique index, that is by the same collation. The model compares code points exactly.
- `updatedAt` is not modelled. `register`, `validateUser`, `updateUser` and `getAllUsers` return it (src/auth/auth.service.ts:44, 83, 150, 111), and a user record in the model (`PublicUser`) carries every returned field except it.
- `Dtos.MinLength`: a lone UTF-16 surrogate, which a JSON body can carry, has no counterpart among Dafny characters. `VisibleLength` counts as validator.js's `isLength` does for well-formed text: code points, less the variation selectors.
- JSON `null` and object values in request bodies are left out. A field is either absent or a string.
- `console.warn` on a failed unlink is left out.
- `ImagesService.DeleteImage`: the two directories of `Disk` assume the build layout `dist/main.js` with the image service under `dist/api/images`, and the project root as working directory. Other layouts, where the paths might coincide, are not modelled.
- `update-image.dto.ts` is not part of this model. The update body is taken to be an optional `name` and `description`.
- Server bootstrap, CORS and static files (src/main.ts), module wiring (src/app.module.ts), process-manager config (ecosystem.config.js) and the unused exception classes (src/common/exceptions/custom.exceptions.ts) are framework wiring; they serve here only to place the two upload directories.
