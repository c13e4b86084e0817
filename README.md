# Authentication core of a NestJS user service, modelled in Dafny

The modelled system is the user and authentication backend of a NestJS application.
It stores users, roles, sessions, one-off tokens and password history through Prisma.
Its core is the login and session lifecycle:

- credentials are checked against a bcrypt hash;
- a signed access token is issued and persisted as a server-side session of 30 days;
- every guarded request must carry a token whose session is still live and whose user is active;
- a password change runs a strength and reuse policy over the five most recent hashes.

Around that core sit:

- a username generator that probes the user table for a free name;
- request plumbing: the client IP, the client-id check, the role check;
- filename helpers for uploads;
- the DTO validation rules;
- the uniform response envelope and the global exception filter.

The model follows the code file by file:

- **Pure helpers** are datatypes, functions and lemmas: `PasswordUtils`, `MiscellaneousUtils`, `ClientUtils`, `Dtos`, `Responses`, `ExceptionFilters`, `RoleGuards.RolesDecision` and `Auth.ValidateUser`.
- **Repositories** are classes. Each holds its table as a `seq` (users, user–role links, tokens, history) or a `map` (sessions keyed by user and token). Methods update those fields under `modifies`, and read-only queries are functions with `reads`.
- **Services and guards** are classes over the repositories: `Users.UserService`, `Auth.AuthService`, `AuthGuards.AuthGuard`, `RoleGuards.RolesGuard` and `ClientIdMiddlewares.ClientIdMiddleware`. Their methods are proved against the functions that specify them.
- **Loops** are `while` loops: the username probe loop and the upload-filename loop.

Everything the code cannot compute locally is a parameter:

- bcrypt's `compare` is `matches: (string, string) -> bool`, and fresh hashes are string arguments;
- JWT signing and verification are `sign: Payload -> string` and `verify: string -> Option<Payload>`; token expiry is verification returning `None`;
- the clock is `now` (milliseconds);
- random draws are `draw` numbers or a `suffixes: nat -> string` sequence;
- a lookup failing inside the username loop is `failAt`;
- new row ids are `id` arguments;
- the upload directory's contents are `existing: set<string>`.

A Prisma write that violates a unique key (a session or token stored twice, an update of a missing row) is `Err(DatabaseError)`.

JavaScript semantics the code relies on are written out:

- `||` on strings is the truthiness of a non-empty string (`Entities.Truthy`);
- `split(c)[0]` is `Text.UntilChar`;
- `trim` strips JavaScript white space (`Text.Trim`);
- `length` counts UTF-16 code units (`PasswordUtils.Utf16Length`);
- the validator library's `isLength` counts code points, but not the variation selectors U+FE0E and U+FE0F (`Dtos.ValidatorLength`).

## Model

| member | source | states |
|---|---|---|
| PasswordUtils.IsStrongPassword | src/utils/password.utils.ts:33-42 | true exactly when the password has at least 8 UTF-16 units and contains an upper-case letter, a lower-case letter, a digit and one of the listed special characters |
| PasswordUtils.ShortPasswordIsWeak | src/utils/password.utils.ts:34 | a password shorter than 8 units is never strong, whatever it contains |
| PasswordUtils.StrongExample | src/utils/password.utils.ts:33-42 | `Passw0rd!` passes the strength policy |
| PasswordUtils.WeakExample | src/utils/password.utils.ts:33-42 | `password` fails the strength policy (no upper case, digit or special) |
| PasswordUtils.GenerateRandomToken | src/utils/password.utils.ts:50-52 | the token is the lower-case hex of the random bytes: twice as long, only hex digits, and decoding it gives the bytes back |
| PasswordUtils.HexRoundTrip | src/utils/password.utils.ts:51 | hex decoding inverts hex encoding for every byte sequence, so distinct random bytes give distinct tokens |
| MiscellaneousUtils.Sanitize | src/utils/miscellaneous.utils.ts:33-35 | the result keeps only lower-case ASCII letters and digits (after lower-casing) and is never longer than the input |
| MiscellaneousUtils.SanitizeFixedPoints | src/utils/miscellaneous.utils.ts:33-35 | sanitizing leaves a string unchanged if and only if it is made only of lower-case letters and digits |
| MiscellaneousUtils.SanitizeIdempotent | src/utils/miscellaneous.utils.ts:33-35 | sanitizing twice is the same as sanitizing once |
| MiscellaneousUtils.CreateValidFilenameChars | src/utils/miscellaneous.utils.ts:14-27 | every character of a created filename is a lower-case ASCII letter, a digit, `.` or `_`, and the result never starts with `.` |
| MiscellaneousUtils.CreateValidFilenameBounded | src/utils/miscellaneous.utils.ts:22-24 | with a positive maximum length the result is at most that long |
| MiscellaneousUtils.CreateValidFilenameTruncates | src/utils/miscellaneous.utils.ts:22-24 | with a positive maximum the result is the prefix of the untruncated result of that length; a zero maximum truncates nothing |
| MiscellaneousUtils.CreateValidFilenameNoEdgeDots | src/utils/miscellaneous.utils.ts:7-19 | without truncation a created filename neither starts nor ends with `.` |
| MiscellaneousUtils.CreateValidFilenameIdempotent | src/utils/miscellaneous.utils.ts:14-27 | without truncation, cleaning an already cleaned filename changes nothing |
| MiscellaneousUtils.TruncationLeavesTrailingDot | src/utils/miscellaneous.utils.ts:19-24 | truncating after stripping dots lets `a.b` with maximum 2 become `a.`, which ends with a dot |
| MiscellaneousUtils.CleanTruncation | src/utils/miscellaneous.utils.ts:16-26 | when the cleaned name is already lower case and longer than the maximum, the result is exactly its prefix of that length |
| MiscellaneousUtils.CreateValidFilenameCorrectedSound | src/utils/miscellaneous.utils.ts:7-27 | the corrected order (truncate, then strip dots) yields only valid characters, no dot at either end, and at most the maximum length |
| MiscellaneousUtils.GenerateSuffix | src/utils/miscellaneous.utils.ts:37-39 | a suffix of length 1 to 14 is a decimal string of exactly that many digits without a leading zero; other lengths give no suffix |
| MiscellaneousUtils.RandomInt | src/utils/miscellaneous.utils.ts:38 | the drawn number lies in the range from 10^(length−1) up to but excluding 10^length |
| MiscellaneousUtils.GenerateSuffixInRange | src/utils/miscellaneous.utils.ts:37-39 | the suffix spells a number in that range |
| MiscellaneousUtils.GenerateSuffixCoversRange | src/utils/miscellaneous.utils.ts:37-39 | every number of that range is the suffix for some draw, so the generator can produce every allowed value |
| ClientUtils.GetClientIP | src/utils/client.utils.ts:5-21 | the first field of a non-empty `x-forwarded-for`, trimmed, wins; otherwise `x-real-ip`, then `cf-connecting-ip`, then the socket ip, then the remote address, then null, each only when non-empty |
| ClientUtils.OnlyForwardedCanBeBlank | src/utils/client.utils.ts:10-20 | an empty result can only come from a forwarded header whose first field is blank; every other source yields a non-empty address or null |
| ClientUtils.ForwardedFirstFieldWins | src/utils/client.utils.ts:10-12 | for a header of the form ` client,rest` the result is exactly `client`, whatever follows the comma |
| ClientIdMiddlewares.ClientIdMiddleware.Use | src/common/middlewares/client-id.middleware.ts:10-22 | a missing or empty `x-client-id` header, or one differing from the configured id, is a 401 and `next` is not called; otherwise the request records the client id and `next` is called once; headers and user are untouched |
| UploadFilenames.StemThenExtension | src/common/multer/filename.util.ts:13-14 | the base name followed by the extension is the original last path segment, so `base-index+ext` keeps the extension |
| UploadFilenames.NumberedInjective | src/common/multer/filename.util.ts:21 | distinct indices give distinct numbered names |
| UploadFilenames.TakenBound | src/common/multer/filename.util.ts:19-22 | if the names numbered 1 to n are all taken, the directory holds at least n names, which bounds the loop |
| UploadFilenames.UniqueFilename | src/common/multer/filename.util.ts:4-24 | the chosen name is not in the directory; it is the original name when that is free, else `base-k+ext` for the least free index k |
| UploadFilenames.Probe | src/common/multer/filename.util.ts:16-22 | the probe loop stops at a free name, and every smaller index it passed was taken |
| Dtos.PasswordPattern | src/core/user/dto/create-user.dto.ts:42 | the lookahead pattern matches exactly when a single-line string has a lower-case letter, an upper-case letter, a digit, one of the DTO's special characters, and at least 8 units |
| Dtos.ValidatorLength | src/core/user/dto/create-user.dto.ts:41 | the length the validator measures never exceeds the number of code points |
| Dtos.MinLengthImpliesPatternLength | src/core/user/dto/create-user.dto.ts:41-42 | the validator's length is at most the UTF-16 length, so every string the minimum-length rule accepts also has the 8 units the pattern's `.{8,}` asks for (the converse fails for characters outside the Basic Multilingual Plane) |
| Dtos.ValidUpdatePasswordFields | src/core/user/dto/update-password.dto.ts:9-32 | a valid password-change body has a non-empty current password, a new password meeting the password rule, and a confirmation equal to the new password |
| Dtos.NoAdministratorSignUp | src/core/user/dto/create-user.dto.ts:14-53 | no registration body naming the administrator role is valid |
| Dtos.DtoRuleExample | src/core/user/dto/update-password.dto.ts:14-24 | `Passw0rd-` passes the DTO's password rule |
| Dtos.DtoRuleExampleIsWeak | src/utils/password.utils.ts:33-42 | `Passw0rd-` fails the service's strength policy, so a body the DTO accepts can still be refused as weak |
| Dtos.StrongExampleFailsDtoRule | src/core/user/dto/update-password.dto.ts:18 | `Passw0rd?` fails the DTO's pattern |
| Dtos.StrongDespiteDtoRule | src/utils/password.utils.ts:33-42 | `Passw0rd?` is strong by the service's policy, so the two special-character sets disagree in both directions |
| Responses.MakeCustomResponse | src/common/dto/custom-response.dto.ts:9-22 | the status defaults to 200, success holds exactly when the status is below 400, and message, data, error code and errors are kept as given |
| Responses.DefaultIsSuccess | src/common/dto/custom-response.dto.ts:12-16 | a response built without a status is a success with status 200 |
| ExceptionFilters.Catch | src/common/filters/global-exception.filter.ts:13-42 | an HTTP exception keeps its status and, for an object body, its message (or `Request failed`), code and errors; a plain error is a 500 with its own message and `INTERNAL_SERVER_ERROR`; anything else a 500 with `Unknown error`; the data is always null and success holds exactly below 400 |
| ExceptionFilters.ReasonSurvivesFilter | src/common/filters/global-exception.filter.ts:19-30 | the machine-readable reason of an application exception is the one the client reads back from the reply |
| ExceptionFilters.ErrorStatusMeansFailure | src/common/filters/global-exception.filter.ts:13-42 | every exception with a status of 400 or more produces an unsuccessful reply |
| ExceptionFilters.BadRequestReply | src/common/filters/global-exception.filter.ts:19-30 | a bad-request exception becomes a 400 reply carrying its message, `BAD_REQUEST` and its field errors |
| ExceptionFilters.FrameworkUnauthorizedReply | src/common/filters/global-exception.filter.ts:19-30 | the framework's own 401 (as thrown by the client-id middleware) becomes a 401 reply with its message and no error code |
| HistoryStore.InsertNewestFirst | src/core/user/domain/repositories/user-password-history.repository.ts:34-36 | inserting into a newest-first list keeps it newest-first and adds exactly one element |
| HistoryStore.SortNewestFirst | src/core/user/domain/repositories/user-password-history.repository.ts:34-36 | the ordering gives a permutation of the rows sorted by creation time, newest first |
| HistoryStore.History | src/core/user/domain/repositories/user-password-history.repository.ts:28-41 | the history has at most `limit` rows (5 by default), all of the given user and all stored, newest first |
| HistoryStore.HistoryIsNewest | src/core/user/domain/repositories/user-password-history.repository.ts:28-41 | a stored row of the user is either in the history, or the history is full and every row in it is at least as recent |
| HistoryStore.AppendedIsNewest | src/core/user/domain/repositories/user-password-history.repository.ts:28-59 | a row appended no earlier than the user's other rows heads that user's history |
| HistoryStore.UserPasswordHistoryRepository.GetPasswordHistoryByUserId | src/core/user/domain/repositories/user-password-history.repository.ts:28-41 | the query returns the history of the stored rows for that user and limit |
| HistoryStore.UserPasswordHistoryRepository.AddPasswordHistory | src/core/user/domain/repositories/user-password-history.repository.ts:51-59 | one row with the hash and the current time is appended; nothing is removed |
| SessionStore.MapToEntity | src/core/user/domain/repositories/user-session.repository.ts:102-126 | an empty ip address or user agent reads back as null; every other field is kept |
| SessionStore.UserSessionRepository.GetUserSessionByToken | src/core/user/domain/repositories/user-session.repository.ts:31-45 | a session is found exactly when one is stored for that user and token and has not expired |
| SessionStore.UserSessionRepository.SaveUserSession | src/core/user/domain/repositories/user-session.repository.ts:57-73 | a new active session for the user and token is stored with the given expiry and read back until it expires; storing the same user and token twice fails and changes nothing |
| SessionStore.UserSessionRepository.DeleteUserSession | src/core/user/domain/repositories/user-session.repository.ts:82-93 | exactly that session is removed, and it is found at no time afterwards; deleting a missing session fails and changes nothing |
| TokenStore.MapToEntity | src/core/user/domain/repositories/user-token.repository.ts:131-144 | an empty ip address or user agent reads back as null; every other field is kept |
| TokenStore.NewTokenRow | src/core/user/domain/repositories/user-token.repository.ts:75-91 | a created token is used exactly when the caller passes `isUsed` true, has no `usedAt`, is stamped with the current time, and expires 24 hours from now unless an expiry is given |
| TokenStore.UpdatedRow | src/core/user/domain/repositories/user-token.repository.ts:100-123 | an update resets every field it is not given (type `PASSWORD_RESET`, expiry in 24 hours, unused), stamps `usedAt` exactly when the token becomes used, and keeps id, owner, token and creation time |
| TokenStore.UserTokenRepository.FindFirst | src/core/user/domain/repositories/user-token.repository.ts:35-42 | returns a row matching the owner, token and used-flag filter, and nothing exactly when no row matches |
| TokenStore.UserTokenRepository.ValidateUserToken | src/core/user/domain/repositories/user-token.repository.ts:51-66 | a token is returned exactly when a row of that user, token and type is unused and unexpired |
| TokenStore.UserTokenRepository.Create | src/core/user/domain/repositories/user-token.repository.ts:75-91 | the new row is appended and returned unless the user already holds that token, in which case nothing changes and the write fails |
| TokenStore.UserTokenRepository.Update | src/core/user/domain/repositories/user-token.repository.ts:100-123 | the unused row of the user and token is replaced by its updated form and every other row is kept; with no such row the write fails and nothing changes |
| UserStore.MapToEntity | src/core/user/domain/repositories/user.repository.ts:224-257 | the password is exposed only when asked for; metadata that is not an object or array becomes an empty object; every other modelled field of the row (identity, names, contact, gender, provider, the three flags, creation time) and the given roles are copied |
| UserStore.NewUserRow | src/core/user/domain/repositories/user.repository.ts:181-198 | a new row stores the hash and the generated username; empty optional text is stored as null and missing flags as false |
| UserStore.UserRepository.FindById | src/core/user/domain/repositories/user.repository.ts:34-54 | a user is found exactly when the id is stored, and the password is never returned |
| UserStore.UserRepository.FindByEmail | src/core/user/domain/repositories/user.repository.ts:63-85 | found exactly when a row has that email; the row is projected with or without the password as asked |
| UserStore.UserRepository.FindByUsername | src/core/user/domain/repositories/user.repository.ts:94-116 | found exactly when a row has that username; the row is projected with or without the password as asked |
| UserStore.UserRepository.FindByEmailOrUsername | src/core/user/domain/repositories/user.repository.ts:125-150 | found exactly when some row has that username or that email; with the password requested, the stored hash of that row is returned |
| UserStore.UserRepository.FoundByLoginReadsBackById | src/core/user/domain/repositories/user.repository.ts:125-150 | a user found by login name reads back by its id as the same user without its password |
| UserStore.UserRepository.CheckUsernameAvailability | src/core/user/domain/repositories/user.repository.ts:158-169 | a username is available exactly when no row holds it |
| UserStore.UserRepository.Create | src/core/user/domain/repositories/user.repository.ts:181-198 | the new row is appended unless its id, username or email is taken, in which case nothing changes and the write fails; ids, usernames and emails stay unique |
| UserStore.UserRepository.UpdatePassword | src/core/user/domain/repositories/user.repository.ts:207-215 | only the password of that user's row changes; a missing user fails and changes nothing |
| UserStore.UserRepository.MapRoleWithUser | src/core/user/domain/repositories/role.repository.ts:94-101 | a link is appended exactly when the role and the user both exist, and otherwise the write fails; the user and role tables are untouched |
| UserStore.UserRepository.FindRoleByName | src/core/user/domain/repositories/role.repository.ts:54-63 | returns a stored role of that name, and nothing exactly when there is none |
| UserStore.UserRepository.FindRolesByUserId | src/core/user/domain/repositories/role.repository.ts:71-84 | returns the stored roles linked to the user, in link order |
| UserStore.UserRepository.FindByIdWithPassword | src/core/user/domain/repositories/user.repository.ts:34-54 | the lookup the corrected password change uses, which the source does not have: `findById` with `mapToEntity(user, true)`; found exactly when `FindById` finds the user, equal to it apart from carrying the stored password |
| Users.BaseUsername | src/core/user/user.service.ts:118-128 | the base is sanitized `first.last` when both names are given, else the given name sanitized, else the sanitized part of the email before `@`; it holds a dot exactly when both names are given |
| Users.Suffix | src/core/user/user.service.ts:139-141 | every retry suffix has four digits and no leading zero |
| Users.CandidateShape | src/core/user/user.service.ts:136-141 | each retry tries the base followed by a four-digit suffix |
| Users.UserService.UniqueUsernameIsFreeOrFallback | src/core/user/user.service.ts:115-163 | the generated username is either a candidate found free in the table or the base followed by the current time |
| Users.UserService.FreeBaseIsKept | src/core/user/user.service.ts:136-159 | when the base name itself is free it is the username |
| Users.UserService.GenerateUniqueUsername | src/core/user/user.service.ts:115-163 | the loop returns the username the specification function defines, having probed at most five candidates, in order |
| Users.UserService.Create | src/core/user/user.service.ts:172-198 | an unknown role is `INVALID_ROLE` and writes nothing; otherwise the user and its role link are both written or neither, and the result is the new user as read back by id, without its password and with the role |
| Users.UserService.CreateWithRole | src/core/user/user.service.ts:182-186 | the transaction appends both the user row and its link to the role, or, when the insert fails, neither |
| Users.UserService.NewUserReadBack | src/core/user/user.service.ts:192-197 | after the transaction the new user is found by id and carries the role |
| Users.PasswordChangeVerdict | src/core/user/user.service.ts:216-244 | the first failing check is named: a given but wrong current password, the new password equal to the stored one, a weak new password, or reuse of one of the recent hashes, in that order |
| Users.PasswordChangeOutcome | src/core/user/user.service.ts:207-244 | a missing user is `USER_NOT_FOUND`; otherwise the change succeeds exactly when no check fails, and fails with that check's code |
| Users.PassedPolicyIsFresh | src/core/user/user.service.ts:216-244 | a password that passes is strong, differs from the stored hash and from every recent hash, and any given current password matched |
| Users.UserService.ApplyPasswordChange | src/core/user/user.service.ts:207-252 | the outcome is the password-change outcome; on success the stored hash and the history change together, on failure neither |
| Users.UserService.UpdatePassword | src/core/user/user.service.ts:207-252 | as written: the outcome is the policy checked against the user read by `findById`; on failure nothing changes; on success that user's stored password becomes the new hash, every other user row stays, and one history row with the new hash is appended |
| Users.UserService.UpdatePasswordRejectsCorrectCurrentPassword | src/core/user/user.service.ts:208-216 | as written, a user who gives their correct, non-empty current password is still refused with `INCORRECT_CURRENT_PASSWORD`, because the hash compared against is empty |
| Users.UserService.UpdatePasswordCorrected | src/core/user/user.service.ts:207-252 | the outcome is the policy checked against the stored hash; on failure nothing changes; on success that user's stored password becomes the new hash, every other user row stays, and one history row with the new hash is appended |
| Users.UserService.UpdatePasswordCorrectedChecksStoredHash | src/core/user/user.service.ts:216-224 | with the stored hash, the change is refused as `INCORRECT_CURRENT_PASSWORD` exactly when a given current password does not match it; a new password matching it (after a correct or absent current password) is refused with `PASSWORD_SAME_AS_OLD`; the change succeeds exactly when the whole policy holds |
| Users.MergeTokenUpdate | src/core/user/user.service.ts:320-327 | a field not given in the patch keeps the existing token's value; a given field replaces it; the token to match is the existing one |
| Users.MergedUpdateKeepsFields | src/core/user/user.service.ts:320-329 | merging a patch and updating leaves type, expiry and used-flag unchanged unless the patch sets them |
| Users.UserService.ValidateUserToken | src/core/user/user.service.ts:273-281 | succeeds exactly when the user holds an unused, unexpired token of that type, and returns the entity of such a stored row; otherwise `TOKEN_INVALID_OR_EXPIRED` |
| Users.UserService.CreateUserToken | src/core/user/user.service.ts:290-298 | the repository's create: the token is appended unless the user already holds it |
| Users.UserService.UpdateUserToken | src/core/user/user.service.ts:307-336 | with no unused token of that user and value, `TOKEN_NOT_FOUND` and nothing changes; otherwise only that row changes, to the merged update |
| Users.UserService.UpdateFoundToken | src/core/user/user.service.ts:320-336 | once the unused row is found, only that row changes and the returned token is its new state |
| Users.UserService.GetUserSessionByToken | src/core/user/user.service.ts:345-350 | a session is returned exactly when a live one is stored for that user and token, and it is that stored session's entity |
| Users.UserService.SaveUserSession | src/core/user/user.service.ts:362-366 | the repository's save: the session is stored and read back until it expires |
| Users.UserService.DeleteUserSession | src/core/user/user.service.ts:375-379 | the repository's delete: the session is gone at every time afterwards |
| Users.UserService.FindRolesByUserId | src/core/user/user.service.ts:260-264 | always returns a list: exactly the roles linked to the user, in link order |
| Auth.ValidateUser | src/core/auth/auth.service.ts:65-82 | an unknown user or a wrong password is `INVALID_USERNAME_OR_PASSWORD`; a correct password of an inactive user is `USER_IS_NOT_ACTIVE`; the user is returned exactly when the password matches and the account is active; every failure is a 401 |
| Auth.WrongPasswordLooksLikeUnknownUser | src/core/auth/auth.service.ts:68-75 | a wrong password yields the same error as an unknown user, so the reply does not reveal which accounts exist |
| Auth.TokenPayload | src/core/auth/auth.service.ts:84-104 | the signed payload carries the user's id (both as id and subject), email, username and roles |
| Auth.AuthService.Authenticate | src/core/auth/auth.service.ts:26-48 | a failed validation writes nothing and returns its error; otherwise the token signed for the user's payload is stored, every other session unchanged, as an active session holding the request's ip and user agent, created now and expiring in 30 days; it is live now, and the user is returned without the password with that token; a session already stored under that token fails and writes nothing |
| Auth.AuthService.Logout | src/core/auth/auth.service.ts:61-63 | exactly that session is removed; a missing one fails as a database error |
| AuthGuards.TokenOf | src/core/auth/guards/auth.guard.ts:19 | there is a token exactly when the header contains a space, and it is the field after the first space |
| AuthGuards.SchemeIsIgnored | src/core/auth/guards/auth.guard.ts:14-19 | the word before the space is never checked: any scheme followed by the token yields that token |
| AuthGuards.AuthGuard.CanActivate | src/core/auth/guards/auth.guard.ts:12-46 | a missing header is `MISSING_OR_INVALID_TOKEN`; a missing, unverifiable or session-less token is `INVALID_OR_EXPIRED_TOKEN`, the user being attached once the token verifies; an unknown or inactive user is `INVALID_USER`; otherwise access is granted; headers, ip and client id are untouched |
| AuthGuards.AuthGuard.AdmitsLiveSession | src/core/auth/guards/auth.guard.ts:12-46 | a verified token with a live session for an active user is admitted |
| AuthGuards.LoginThenAccess | src/core/auth/auth.service.ts:26-48 | after a successful login the returned token, presented as a bearer token, is admitted by the guard |
| AuthGuards.BearerAccess | src/core/auth/guards/auth.guard.ts:12-46 | a bearer request whose token verifies and has a live session for an active user is admitted |
| AuthGuards.LogoutThenAccess | src/core/auth/auth.service.ts:61-63 | after logout the same token is refused with `INVALID_OR_EXPIRED_TOKEN` |
| RoleGuards.HasMatchingRole | src/core/auth/guards/roles.guard.ts:30-33 | true exactly when one of the user's roles is named among the allowed roles |
| RoleGuards.RolesDecision | src/core/auth/guards/roles.guard.ts:16-36 | without roles for the user, `INVALID_USER`; without role metadata, access; otherwise access exactly when a role matches, else `UNAUTHORIZED` (always so for an empty allowed list) |
| RoleGuards.RolesGuard.CanActivate | src/core/auth/guards/roles.guard.ts:16-36 | a request without an attached user fails with a plain error; otherwise the decision above over the user's stored roles |

## Left out

- bcrypt hashing and comparison (src/utils/password.utils.ts:11-25) are parameters. Salt rounds and cost are not modelled.
- JWT signing and verification are parameters. The expiry that `verify` checks is inside that parameter.
- Prisma is not modelled as a database: a table is a sequence or a map.
  - A transaction is a method that writes all or nothing. Concurrency between requests is not modelled.
  - Prisma leaves the order of rows with equal sort keys unspecified. The model fixes one: the password history puts the later-logged of two rows with the same creation time first, and the other lookups return the first matching row in table order.
- Azure blob storage, configuration loading and the NestJS module, controller and decorator wiring are not part of this model.
- `parseUserAgent` (src/utils/client.utils.ts:23-) is left out: it delegates to the `ua-parser-js` library.
- `convertDateToUTC` (src/utils/miscellaneous.utils.ts:29-31) is left out: it is date arithmetic on the host's time zone.
- The response interceptor and the response DTO wrappers (`UserResponseDto`, `LoginResponseDto`) only copy fields. `Auth.PublicUser` stands for both.
- `register` and the service's find pass-throughs only forward to the repository, so the repository members carry their contract.
  - src/core/auth/auth.service.ts:51-53; src/core/user/user.service.ts:40-44, 92-94, 103-105.
- The Roles, Gender and UserTokenType enums are not part of this model. Names are plain strings, and the gender and role sets are parameters of `Dtos.ValidCreateUser`.
- The checks that a just-written row was returned (`USER_CREATION_FAILED` and alike) are left out: Prisma's create and update return the row or throw, so those branches cannot be reached.
- `uniqueFilename`'s `catch` branch is left out: the file-system check is a set, so nothing throws.
- UploadFilenames.UniqueFilename: `path.join` normalisation is not modelled, for the upload directory or for the file name. A name that is empty, `.` or `..` makes the source test the directory or its parent, so `""` becomes `-1`, whereas the model returns `""` when it is not in the set. A name containing `/` is tested inside a sub-directory, while the model tests it as one entry.
- MiscellaneousUtils.Truncate: `maxLength` is an integer. A fractional JavaScript number, for which `substring` truncates the end index, is not modelled.
- UserStore.MapToEntity: the entity has no `providerId`, `timezone`, `locale`, `bio`, `dob`, `tagline`, `website`, `countryCodeIso3` or `updatedAt`. No operation of the core reads them, and the source copies them unchanged (src/core/user/domain/repositories/user.repository.ts:237-253).
- Header values that arrive as arrays (repeated headers) are not modelled: a header is a single string.
- Users.UserService.GenerateUniqueUsername: follows the code, which probes five candidates in all: the base and then four suffixed names. The fallback is not checked for availability.
- Dtos.PasswordPattern: positions are UTF-16 code units, as in a regular expression without the `u` flag. Characters outside the Basic Multilingual Plane count as two units, and the pattern's `.` does not match line terminators.
- A negative `take` in the history query is not modelled: the limit is a `nat`.
- The Prisma schema is not part of this model. Sessions and tokens are taken to be unique by the pair (user, token), since `findUnique`, `update` and `delete` receive both fields (src/core/user/domain/repositories/user-session.repository.ts:32-35, src/core/user/domain/repositories/user-token.repository.ts:112-116). If the schema makes `token` unique on its own, the database also refuses a second user's session or token with the same string, and the model does not capture that refusal.
- Schema defaults the code does not set (timestamps, `updatedAt`) are parameters or left out.

## Findings

| source | as written | input that shows it | evidently intended | confidence | as-written member | corrected member |
|---|---|---|---|---|---|---|
| src/core/user/user.service.ts:208-221 | `findById` never returns the password, so both comparisons run against `''` | any user, `currentPassword` equal to their real, non-empty password | compare against the stored hash, read with the password | not executed | Users.UserService.UpdatePasswordRejectsCorrectCurrentPassword | Users.UserService.UpdatePasswordCorrectedChecksStoredHash |
| src/utils/miscellaneous.utils.ts:7-24 | dots are stripped before truncation | `createValidFilename("a.b", 2)` gives `a.` | the result neither starts nor ends with a dot | not executed | MiscellaneousUtils.TruncationLeavesTrailingDot | MiscellaneousUtils.CreateValidFilenameCorrectedSound |
