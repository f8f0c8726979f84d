# NoteApplication core in Dafny

A Dafny model of five parts of the NoteApplication back end and its Telegram bot:

- **Permission and claims authorization.**
  - The seven `Permissions.<Resource>.<Action>` strings.
  - The static role-to-permission table.
  - The claim list `TokenRepository.GenerateJwtToken` puts in a token.
  - The `[PermissionAuthorize(...)]` attribute on every controller action.
  - Together these give the access matrix of the two roles, and of a role number that names no member, over the 18 endpoints (modules `Permissions`, `Tokens`, `Endpoints`).
- **Repositories over an in-memory store.**
  - The store is a map from id to row plus the next identity value (`Store`).
  - Filtered and paged listing, lookup with 404, create, partial update and delete, for notes, reminders and users (`NoteRepository`, `ReminderRepository`, `UserRepository`).
  - Login and registration (`AuthRepository`).
- **The reminder mailer.** The inclusive one-minute window and the mails `SendEmailEveryMinute` composes (`EmailRepository`).
- **Telegram Mini App `initData` verification** (`InitData`). This covers:
  - parsing the query string;
  - the data-check string;
  - the two HMAC steps;
  - the lower-case hex text of a digest and its UTF-8 bytes;
  - the accept/reject decision.
- **The bot.**
  - The per-chat session table (`Sessions`).
  - The message handler as a pure step function from (sessions, update, backend answers) to (sessions, actions) (`Bot`). It covers null text, trimming, command tokenising, the `awaiting_*` conversation states, the authentication guards and the callback buttons.

Supporting modules:

| Module | What it models |
|---|---|
| `Text` | .NET `Trim`, `char.IsWhiteSpace`, `Split`, `Join` and `ToLower` |
| `Int32` | C# `int` wrap-around, `int.TryParse` and `ToString` |
| `Order` | Ordinal string order and sorting |
| `Entities` | The database rows |

Cryptography, password hashing, percent-decoding and JSON are function-typed parameters. So are the mail-address parser and every backend answer the bot receives.

The model makes these decisions where the code is silent or inconsistent:

- **Listing order.** Listing order is ascending id. The queries carry no `ORDER BY`, so the database's order is unspecified.
- **Paging offset.** The offset `(PageNumber-1)*PageSize` is computed with C# 32-bit wrap-around (`Int32.Wrap`). A negative offset or page size is a database error (`None`).
- **Reminder rows.**
  - The reminder row is the union of the two views of it. `ReminderRepository` reads and writes `NoteId`, which `Clean.Domain/Entities/Reminder.cs` does not declare. The mailer reads `UserId` and `Body`.
  - A reminder created by the repository has `UserId` 0 and a null body.
- **User email.** The user row carries `Email`, which the mailer reads and a migration adds.
- **`PagedResponse` arguments.** These are recorded in call order, because the constructor is not part of this model:
  - `NoteRepository` and `ReminderRepository` pass (data, total, page, size).
  - `UserRepository` passes (data, page, size, total).
- **The second HMAC key.** The verifier keys the second HMAC with the UTF-8 bytes of the lower-case hex text of the first digest, not with the digest's raw bytes as Telegram's procedure for Web Apps prescribes. The model follows the code; `InitData.SecondKeyIsHexText` states the consequence.
- **Missing `username` in TempData.** If the password step finds no `username` in TempData, the code throws and the handler reports "An error occurred". That path is modelled, and `Bot.NoErrorFromStart` proves it unreachable from consistent sessions.
- **The `create_reminder` button.** The button the reminders keyboard offers has no case in the callback handler. Pressing it only answers the callback (`Bot.CreateReminderButtonIgnored`).
- **Note DTO ids.** Note DTOs never carry an id: the repository leaves `Id` at 0.
- **Role numbers.** A C# enum is open, and the JSON string-enum converter also accepts plain integers. So a user can be stored with a role number that names no member (`Role.Undefined`). Its `ToString()` is the decimal text, and the role table grants it no permission.

## Model

| member | source | states |
|---|---|---|
| Permissions.ConstantsFollowNamingScheme | Clean.Application/Permission/PermissionConstants.cs:8-22 | each of the seven constants is `Permissions.<Resource>.<Action>` for the resource class and action it is declared under |
| Permissions.ConstantsDistinct | Clean.Application/Permission/PermissionConstants.cs:8-22 | the seven permission strings are pairwise different |
| Permissions.ViewAndManageDiffer | Clean.Application/Permission/PermissionConstants.cs:8-22 | for every resource the View and Manage strings differ, so holding one never passes a gate for the other |
| Permissions.OnlyUsersHasManageSelf | Clean.Application/Permission/PermissionConstants.cs:9 | ManageSelf is declared for Users and for no other resource |
| Permissions.RoleTableContents | Clean.Application/Permission/RolePermissionMapping.cs:11-28 | the table has entries for exactly Admin and User; Admin's list is Users.Manage, Users.View, Notes.Manage, Notes.View, Reminders.Manage, Reminders.View and User's is the last four, in that order |
| Permissions.UserPermissionsWithinAdmin | Clean.Application/Permission/RolePermissionMapping.cs:11-28 | every permission User holds, Admin holds too |
| Permissions.UserHasNoUserAdministration | Clean.Application/Permission/RolePermissionMapping.cs:22-28 | User holds neither Users.View nor Users.Manage |
| Permissions.ManageSelfNeverGranted | Clean.Application/Permission/RolePermissionMapping.cs:8-30 | no role is granted Users.ManageSelf, and every granted string is one of the declared constants |
| Permissions.RoleListsDistinct | Clean.Application/Permission/RolePermissionMapping.cs:11-28 | no role's list repeats a permission |
| Permissions.PermissionsOf | Clean.Infrastructure/Repositories/Authentication/TokenRepository.cs:22 | `TryGetValue` on the table: a role without an entry gets the empty list, any other role its entry |
| Tokens.PermissionClaims | Clean.Infrastructure/Repositories/Authentication/TokenRepository.cs:22-26 | one `Permission` claim per entry of the list, in list order, valued with that entry |
| Tokens.GenerateJwtToken | Clean.Infrastructure/Repositories/Authentication/TokenRepository.cs:14-42 | issuer and audience copied from configuration, HMAC-SHA-256 with the configured key, expiry exactly two hours after issue, and 3 + (role's list length) claims |
| Entities.RoleName | Clean.Infrastructure/Repositories/Authentication/TokenRepository.cs:20 | a role's `ToString()` is "Admin" exactly for Admin and "User" exactly for User; a number that names no member gives its decimal text |
| Tokens.ClaimsLayout | Clean.Infrastructure/Repositories/Authentication/TokenRepository.cs:16-26 | the claims are NameIdentifier = decimal id, Name = user name, Role = role name, then the role's permissions in order |
| Tokens.IdentifierClaimRoundTrip | Clean.Infrastructure/Repositories/Authentication/TokenRepository.cs:18 | the NameIdentifier claim's value parses back (`int.TryParse`) to the user's id |
| Tokens.PermissionValuesOfPermissionClaims | Clean.Infrastructure/Repositories/Authentication/TokenRepository.cs:24-25 | reading the values of the `Permission` claims back gives the original list |
| Tokens.PermissionClaimsRoundTrip | Clean.Infrastructure/Repositories/Authentication/TokenRepository.cs:16-26 | the `Permission` claim values of an issued token are exactly the role's list: the three identity claims contribute none |
| Tokens.MissingRoleHasNoPermissions | Clean.Infrastructure/Repositories/Authentication/TokenRepository.cs:22 | a role absent from the table yields only the three identity claims and passes no permission gate |
| Tokens.GateMatchesTable | Clean.Infrastructure/Repositories/Authentication/TokenRepository.cs:22-26 | a token's claims pass the gate for a permission exactly when the table grants it to the user's role (both directions) |
| Tokens.IssuedTokenGate | Clean.Infrastructure/Repositories/Authentication/TokenRepository.cs:14-42 | the same equivalence for the token `GenerateJwtToken` issues with the application's table |
| Endpoints.NoteControllerRequirements | Clean.Web/Controllers/NoteController.cs:14-43 | note reads require Notes.View and create/update/delete require Notes.Manage, one permission each |
| Endpoints.ReminderControllerRequirements | Clean.Web/Controllers/ReminderController.cs:13-42 | reminder reads require Reminders.View and writes Reminders.Manage |
| Endpoints.UserControllerRequirements | Clean.Web/Controllers/UserController.cs:13-36 | user reads require Users.View and update/delete Users.Manage |
| Endpoints.AuthControllerRequirements | Clean.Web/Controllers/AuthController.cs:13-39 | exactly `login`, `login/telegram` and `link-telegram` declare no permission; `register` requires Users.Manage |
| Endpoints.Respond | Clean.Web/Controllers/NoteController.cs:14-43 | an action answers 200 OK exactly when the gate passes, and then carries the service's result whatever status code is inside it |
| Endpoints.LinkTelegram | Clean.Web/Controllers/AuthController.cs:25-32 | the chat id is saved and the fixed success message is returned, with no permission needed |
| Endpoints.AccessMatrix | Clean.Web/Controllers/UserController.cs:13-36 | for every role and endpoint, an issued token is let through exactly when the intended matrix allows it: Admin everywhere; User everywhere except the four user endpoints and `register`; a role number that names no member only on the three login and linking endpoints |
| Endpoints.TableMatchesExpected | Clean.Application/Permission/RolePermissionMapping.cs:11-28 | for every guarded endpoint, its permission is in the role's list exactly when the access matrix allows that role |
| Endpoints.RoleOutcomes | Clean.Web/Controllers/AuthController.cs:34-39 | an Admin token passes every endpoint; a User token gets 403 on every user endpoint and on `register`; a token for a role number that names no member passes exactly the endpoints that declare no permission |
| Endpoints.ManageDoesNotGrantView | Clean.Web/Controllers/NoteController.cs:14-25 | a token holding only Notes.Manage is refused on both note reads |
| AuthRepository.FindByName | Clean.Infrastructure/Repositories/Authentication/AuthRepository.cs:15 | no result exactly when no user has that exact name; otherwise a user with that name, the first in listing order |
| AuthRepository.Login | Clean.Infrastructure/Repositories/Authentication/AuthRepository.cs:13-30 | unknown name: 404 "User not found" and no token; wrong password: 401 and no token; otherwise 200 with the issued token, the stored name and the role name |
| AuthRepository.LoginOutcomes | Clean.Infrastructure/Repositories/Authentication/AuthRepository.cs:13-30 | the status is 200, 401 or 404; data is present exactly on 200; and 200 happens exactly when the first user with that name verifies the password |
| AuthRepository.LoginTokenContents | Clean.Infrastructure/Repositories/Authentication/AuthRepository.cs:21-29 | a successful login's token names the user and role given in the response, and its permission claims are the user's role list |
| AuthRepository.Create | Clean.Infrastructure/Repositories/Authentication/AuthRepository.cs:32-52 | a new row with a fresh id stores name, role and the hash; the 200 response echoes the id, name, role and the caller's plaintext password |
| AuthRepository.CreateThenGet | Clean.Infrastructure/Repositories/Authentication/AuthRepository.cs:36-51 | reading the new user back by id gives its name, role and the stored hash; that DTO equals the one registration returned exactly when hashing left the password unchanged |
| AuthRepository.RegisterThenLogin | Clean.Infrastructure/Repositories/Authentication/AuthRepository.cs:13-52 | registering a new name and then logging in with the same password succeeds, with a token for the new row |
| Store.Insert | Clean.Infrastructure/Repositories/NoteRepository.cs:55-56 | adding a row uses a fresh identity value and leaves every other row as it was |
| Store.InsertThenRemove | Clean.Infrastructure/Repositories/NoteRepository.cs:55-56 | removing the row just inserted restores the original rows |
| Store.MatchingIds | Clean.Infrastructure/Repositories/NoteRepository.cs:15-21 | the filtered query: exactly the ids of rows that pass every filter, each once |
| Store.FilterCount | Clean.Infrastructure/Repositories/NoteRepository.cs:22 | filtering a duplicate-free list keeps as many elements as satisfy the predicate |
| Store.Page | Clean.Infrastructure/Repositories/NoteRepository.cs:23-24 | `Skip(offset).Take(size)`: rejected exactly for a negative offset or size, otherwise at most `size` elements, element k being element offset+k |
| Store.Listing | Clean.Infrastructure/Repositories/NoteRepository.cs:15-24 | rejected exactly for a negative offset or size; otherwise the page of matching rows starting at the offset and the total count of all matching rows, counted before paging |
| Store.ListingSound | Clean.Infrastructure/Repositories/NoteRepository.cs:15-30 | every listed entry is the view of a stored row that passes the filters |
| Store.ListingComplete | Clean.Infrastructure/Repositories/NoteRepository.cs:23-24 | every stored row that passes the filters appears on some page, for any positive page size |
| Store.ListedAtPosition | Clean.Infrastructure/Repositories/NoteRepository.cs:23-24 | the matching row at position i appears at index i - offset of the page that covers it |
| Store.PageOfPosition | Clean.Infrastructure/Repositories/NoteRepository.cs:23 | position i falls on page i / size + 1, at index i % size |
| NoteRepository.ToDto | Clean.Infrastructure/Repositories/NoteRepository.cs:25-30 | a note DTO copies title, content and date, and its id stays 0 |
| NoteRepository.GetAll | Clean.Infrastructure/Repositories/NoteRepository.cs:13-32 | exact-date and case-insensitive title/content filters, the total before paging, the page at the wrapped `(PageNumber-1)*PageSize`, and arguments passed as (data, total, page, size) |
| NoteRepository.UnfilteredTotal | Clean.Infrastructure/Repositories/NoteRepository.cs:15-22 | with no filter the total is the number of stored notes |
| NoteRepository.ListedNotesMatch | Clean.Infrastructure/Repositories/NoteRepository.cs:16-30 | every listed note is the DTO of a stored note passing every active filter, and carries id 0 |
| NoteRepository.GetById | Clean.Infrastructure/Repositories/NoteRepository.cs:34-45 | 404 "Note not found!" exactly for an unknown id, otherwise 200 with that row's DTO |
| NoteRepository.Create | Clean.Infrastructure/Repositories/NoteRepository.cs:47-64 | a new row under a fresh id with the dto's title and content, dated today, and 200 with its DTO |
| NoteRepository.Overwrite | Clean.Infrastructure/Repositories/NoteRepository.cs:70-73 | a null or white-space field keeps the stored value; any other value replaces it |
| NoteRepository.Update | Clean.Infrastructure/Repositories/NoteRepository.cs:66-82 | unknown id: 404 and nothing changes; otherwise only non-blank title/content overwrite, the date and owner stay, and no other row changes |
| NoteRepository.UpdateIdempotent | Clean.Infrastructure/Repositories/NoteRepository.cs:66-82 | applying the same update twice stores what applying it once stores |
| NoteRepository.BlankUpdateChangesNothing | Clean.Infrastructure/Repositories/NoteRepository.cs:70-73 | an update whose fields are all blank leaves the table unchanged |
| NoteRepository.Delete | Clean.Infrastructure/Repositories/NoteRepository.cs:84-91 | unknown id: 404 and nothing changes; otherwise exactly that row is removed |
| NoteRepository.CreateThenDelete | Clean.Infrastructure/Repositories/NoteRepository.cs:47-91 | deleting a note just created restores the previous rows, after which it is not found |
| ReminderRepository.ToDto | Clean.Infrastructure/Repositories/ReminderRepository.cs:21-26 | a reminder DTO carries the row's id, note id and time |
| ReminderRepository.GetAll | Clean.Infrastructure/Repositories/ReminderRepository.cs:13-33 | exact note-id filter when given, the total before paging, the page at the wrapped offset, and arguments passed as (data, total, page, size) |
| ReminderRepository.ListedRemindersBelongToNote | Clean.Infrastructure/Repositories/ReminderRepository.cs:16-17 | with a note-id filter every listed reminder is a stored reminder of that note |
| ReminderRepository.GetById | Clean.Infrastructure/Repositories/ReminderRepository.cs:35-46 | 404 "Reminder not found" exactly for an unknown id, otherwise 200 with that row's DTO |
| ReminderRepository.Create | Clean.Infrastructure/Repositories/ReminderRepository.cs:48-64 | a new row under a fresh id with the dto's note id and time, and 200 with the new id |
| ReminderRepository.CreatedIsFound | Clean.Infrastructure/Repositories/ReminderRepository.cs:48-64 | looking up the id `Create` returned gives back the created reminder |
| ReminderRepository.Update | Clean.Infrastructure/Repositories/ReminderRepository.cs:66-79 | unknown id: 404 and nothing changes; otherwise only the time changes, and the note id is kept |
| ReminderRepository.UpdateLastWins | Clean.Infrastructure/Repositories/ReminderRepository.cs:66-79 | two updates of one reminder store what the second alone stores |
| ReminderRepository.UpdateThenGet | Clean.Infrastructure/Repositories/ReminderRepository.cs:66-79 | after a successful update, a lookup returns the DTO the update returned |
| ReminderRepository.Delete | Clean.Infrastructure/Repositories/ReminderRepository.cs:81-88 | unknown id: 404 and nothing changes; otherwise exactly that reminder is removed |
| ReminderRepository.DeleteThenGone | Clean.Infrastructure/Repositories/ReminderRepository.cs:81-88 | after a delete the id is not found, and deleting it again is a 404 that changes nothing |
| UserRepository.ToDto | Clean.Infrastructure/Repositories/UserRepository.cs:22-28 | a user DTO exposes the id, name, role and the stored password hash |
| UserRepository.GetAll | Clean.Infrastructure/Repositories/UserRepository.cs:12-34 | case-insensitive name-substring and role-name filters, the total before paging, the page at the wrapped offset, and arguments passed as (data, page, size, total) |
| UserRepository.ListedUsersMatch | Clean.Infrastructure/Repositories/UserRepository.cs:15-26 | every listed user is a stored user passing the filters, and its DTO exposes the stored hash |
| UserRepository.RoleFilterIgnoresCase | Clean.Infrastructure/Repositories/UserRepository.cs:17-18 | a non-blank role filter matches exactly the users whose role name equals it ignoring case |
| UserRepository.AdminFilterSpellings | Clean.Infrastructure/Repositories/UserRepository.cs:17-18 | "admin", "ADMIN" and "Admin" all select exactly the administrators |
| UserRepository.GetById | Clean.Infrastructure/Repositories/UserRepository.cs:36-48 | 404 "User not found" exactly for an unknown id, otherwise 200 with that user's DTO |
| UserRepository.Update | Clean.Infrastructure/Repositories/UserRepository.cs:50-67 | unknown id: 404 and nothing changes; otherwise name, role and the hash of the new password replace the stored ones, the email stays, and no other row changes |
| UserRepository.UpdateThenGet | Clean.Infrastructure/Repositories/UserRepository.cs:36-66 | after a successful update, reading the user back gives the new name, hash and role under the same id; the email is kept and every other id reads as before |
| UserRepository.Delete | Clean.Infrastructure/Repositories/UserRepository.cs:69-76 | unknown id: 404 and nothing changes; otherwise exactly that user is removed |
| UserRepository.DeleteKeepsOthers | Clean.Infrastructure/Repositories/UserRepository.cs:69-76 | deleting one user leaves every other user, and its lookup, unchanged |
| EmailRepository.DueIds | Clean.Infrastructure/Repositories/EmailRepository.cs:16-23 | exactly the reminders whose time lies within one minute of now, both ends included, and whose owner exists, each once |
| EmailRepository.WindowInclusive | Clean.Infrastructure/Repositories/EmailRepository.cs:20-22 | now, now minus a minute and now plus a minute are due; one tick further out on either side is not |
| EmailRepository.SelectedRows | Clean.Infrastructure/Repositories/EmailRepository.cs:18-23 | the selected reminder rows, in the order of the selected ids |
| EmailRepository.ComposedMail | Clean.Infrastructure/Repositories/EmailRepository.cs:29-36 | a mail's sender and recipient are the given addresses, the subject is "Reminder" and the body is "It is time to: " followed by the reminder's text (nothing for null) |
| EmailRepository.Deliver | Clean.Infrastructure/Repositories/EmailRepository.cs:27-44 | one mail per reminder, in order, up to the first reminder whose sender or recipient address is missing or fails to parse; the loop stops there exactly when such a reminder exists |
| EmailRepository.SendEmailEveryMinute | Clean.Infrastructure/Repositories/EmailRepository.cs:14-45 | nothing selected means no mail; an uninterrupted run sends one mail per selected reminder; mail i is for the i-th selected reminder, which is due, and is composed from the configured sender, that reminder's owner's address and its text; a run stops at the first reminder whose addresses do not parse |
| EmailRepository.OneMailPerDueReminder | Clean.Infrastructure/Repositories/EmailRepository.cs:27-44 | with a valid sender and valid user addresses, exactly one mail per due reminder, addressed to its owner, with the composed subject and body |
| EmailRepository.AllAddressable | Clean.Infrastructure/Repositories/EmailRepository.cs:30-31 | valid sender and user addresses mean no reminder stops the loop |
| EmailRepository.MailsAreForDueReminders | Clean.Infrastructure/Repositories/EmailRepository.cs:18-36 | every mail sent goes to the address of the owner of a reminder that is due |
| InitData.Utf8Char | Clean.Infrastructure/Services/TelegramInitDataVerifier.cs:82-83 | `Encoding.UTF8` of one character: one byte exactly below U+0080 (the code itself), otherwise two to four bytes with continuation bytes after the first |
| InitData.Utf8CharRoundTrip | Clean.Infrastructure/Services/TelegramInitDataVerifier.cs:82-83 | decoding a character's UTF-8 bytes gives the character back |
| InitData.Utf8 | Clean.Infrastructure/Services/TelegramInitDataVerifier.cs:82-83 | a string's UTF-8 bytes are at least as many as its characters, and an ASCII string's bytes are its character codes |
| InitData.LowerHex | Clean.Infrastructure/Services/TelegramInitDataVerifier.cs:84 | two lower-case hex digits per byte, with no separators |
| InitData.HexTextIsLowerHex | Clean.Infrastructure/Services/TelegramInitDataVerifier.cs:84 | `BitConverter.ToString`, with the dashes removed and lower-cased, is exactly the lower-case hex of the bytes |
| InitData.LowerHexRoundTrip | Clean.Infrastructure/Services/TelegramInitDataVerifier.cs:84 | parsing the hex text gives back the bytes |
| InitData.ComputeHmac | Clean.Infrastructure/Services/TelegramInitDataVerifier.cs:80-85 | the result is lower-case hex, twice the digest length, and decodes to the HMAC of the UTF-8 key and data |
| InitData.Entry | Clean.Infrastructure/Services/TelegramInitDataVerifier.cs:28-32 | a pair contributes nothing exactly when it holds no `=` |
| InitData.EntrySplitsAtFirstEquals | Clean.Infrastructure/Services/TelegramInitDataVerifier.cs:28-32 | a pair splits at its first `=`: the key holds no `=`, the value may, and both are unescaped |
| InitData.ParsePairs | Clean.Infrastructure/Services/TelegramInitDataVerifier.cs:26-43 | the parsed parameter map never holds the key `hash` |
| InitData.ParamsLastWins | Clean.Infrastructure/Services/TelegramInitDataVerifier.cs:34-41 | a key other than `hash` is in the map exactly when some pair sets it, and its value is the one the last such pair gives |
| InitData.HashLastWins | Clean.Infrastructure/Services/TelegramInitDataVerifier.cs:34-37 | the hash is empty when no pair sets `hash`, and otherwise it is the value of the last pair that does |
| InitData.EntriesLastWins | Clean.Infrastructure/Services/TelegramInitDataVerifier.cs:26-43 | the loop invariant behind last-wins for ordinary keys, by induction over the entries |
| InitData.EntriesHashWins | Clean.Infrastructure/Services/TelegramInitDataVerifier.cs:26-43 | the loop invariant behind last-wins for `hash`, by induction over the entries |
| InitData.SortedKeys | Clean.Infrastructure/Services/TelegramInitDataVerifier.cs:49-50 | every parameter name exactly once, in strictly increasing ordinal order |
| InitData.CheckLines | Clean.Infrastructure/Services/TelegramInitDataVerifier.cs:49-51 | one `key=value` line per parameter, in sorted key order |
| InitData.VerifyAndParse | Clean.Infrastructure/Services/TelegramInitDataVerifier.cs:18-78 | valid exactly when the hash is non-empty, equals the computed hash character for character, and `user` is present, non-empty and well-formed JSON; a user is returned only when valid |
| InitData.OnlyLowerHexAccepted | Clean.Infrastructure/Services/TelegramInitDataVerifier.cs:60-61 | an accepted hash is lower-case hex of exactly the digest's length and decodes to the expected digest, so any upper-case digit is rejected |
| InitData.SecondKeyIsHexText | Clean.Infrastructure/Services/TelegramInitDataVerifier.cs:54-57 | the second HMAC key is twice as long as the first digest (64 bytes for SHA-256), so it is never the raw digest Telegram's procedure uses |
| Sessions.Fresh | Clean.TelegramBot/Services/UserSessionService.cs:32-41 | a new session carries its chat id, is unauthenticated and has no token, user, role or state and an empty TempData |
| Sessions.GetOrCreate | Clean.TelegramBot/Services/UserSessionService.cs:9-12 | an existing session is returned unchanged; otherwise a fresh one for that chat is stored and returned |
| Sessions.GetOrCreateIdempotent | Clean.TelegramBot/Services/UserSessionService.cs:9-12 | a second call changes nothing and returns the same session |
| Sessions.SetToken | Clean.TelegramBot/Services/UserSessionService.cs:14-19 | the chat's session, created if absent, gets the token and becomes authenticated; other chats are untouched |
| Sessions.Clear | Clean.TelegramBot/Services/UserSessionService.cs:21-24 | the chat's session is removed and no other chat's presence changes |
| Sessions.GetSession | Clean.TelegramBot/Services/UserSessionService.cs:26-29 | null exactly when the chat has no session; it never creates one |
| Sessions.ClearThenGet | Clean.TelegramBot/Services/UserSessionService.cs:21-29 | after clearing, the session is gone and the next `GetOrCreateSession` yields a fresh one |
| Sessions.OtherChatsUnchanged | Clean.TelegramBot/Services/UserSessionService.cs:9-24 | creating, setting a token or clearing for one chat leaves every other chat's session as it was |
| Sessions.OperationsKeepWellKeyed | Clean.TelegramBot/Services/UserSessionService.cs:9-24 | every session stays stored under its own chat id |
| Bot.Words | Clean.TelegramBot/Handlers/MessageHandler.cs:72 | the non-empty space-separated tokens of a command line; the first starts with `/` |
| Bot.Argument | Clean.TelegramBot/Handlers/MessageHandler.cs:100 | an id exists exactly when there is a second token and it parses as a 32-bit int |
| Bot.Interpret | Clean.TelegramBot/Handlers/MessageHandler.cs:76-112 | view and delete commands carry the parsed id, and without an id none is produced |
| Bot.ParseCommand | Clean.TelegramBot/Handlers/MessageHandler.cs:70-113 | a view or delete command's id is the second token parsed as an int |
| Bot.CommandNamesIgnoreCase | Clean.TelegramBot/Handlers/MessageHandler.cs:73 | command lines whose first tokens agree ignoring case, and whose remaining tokens are equal, parse the same |
| Bot.IdCommandWithoutIdIgnored | Clean.TelegramBot/Handlers/MessageHandler.cs:99-111 | `/note`, `/reminder`, `/deletenote` and `/deletereminder` without a parseable id do nothing |
| Bot.CommandTextRoundTrip | Clean.TelegramBot/Handlers/MessageHandler.cs:70-113 | the canonical text of every command parses back to that command |
| Bot.CommandTextRuns | Clean.TelegramBot/Handlers/MessageHandler.cs:38-47 | a step on a command's canonical text runs the command handler on the chat's session |
| Bot.IdCommandActs | Clean.TelegramBot/Handlers/MessageHandler.cs:99-111 | a view or delete command with an in-range id runs the matching view or delete handler and leaves the sessions unchanged |
| Bot.ButtonDataRoundTrip | Clean.TelegramBot/Handlers/MessageHandler.cs:723-761 | every button's callback data is dispatched to that button, except `create_reminder`, which has no case |
| Bot.HandleStart | Clean.TelegramBot/Handlers/MessageHandler.cs:115-175 | the bot announces the check and tries a Telegram login; exactly when that login succeeds it signs the session in with the returned token, name and role and welcomes the user back; otherwise it shows the welcome and leaves the sessions unchanged |
| Bot.HandleLoginCommand | Clean.TelegramBot/Handlers/MessageHandler.cs:177-209 | the bot tries a Telegram login; on success it signs the session in with the returned token, name and role and reports the automatic login; otherwise it asks for the user name and moves to `awaiting_username` |
| Bot.HandleList | Clean.TelegramBot/Handlers/MessageHandler.cs:255-302 | an unauthenticated or token-less session gets only "please log in"; otherwise page 1 of size 10 is fetched with the session's token, and the reply is the failure with the backend's message (or "Unknown error"), "nothing yet" exactly when the returned page is empty, or the returned entries |
| Bot.HandleView | Clean.TelegramBot/Handlers/MessageHandler.cs:304-336 | "please log in" exactly without credentials; otherwise the item is fetched with the session's token and shown on success, or the failure is reported with the backend's message (or "Note not found" / "Reminder not found") |
| Bot.HandleDelete | Clean.TelegramBot/Handlers/MessageHandler.cs:417-442 | "please log in" exactly without credentials; otherwise the item is deleted with the session's token, and the reply says "deleted" exactly when the backend reports success |
| Bot.LoginErrorMessage | Clean.TelegramBot/Handlers/MessageHandler.cs:523-539 | 404, 401 and 500 map to their fixed messages; any other status shows the backend's message, or "Invalid credentials" when there is none |
| Bot.HandleLogin | Clean.TelegramBot/Handlers/MessageHandler.cs:506-575 | the bot calls the login endpoint. A null reply reports that it cannot connect, and a refusal reports `LoginErrorMessage`; neither changes anything. On success it signs the session in, links the chat and reports the name, role and whether the link succeeded |
| Bot.HandleCreateNote | Clean.TelegramBot/Handlers/MessageHandler.cs:577-605 | "please log in" exactly without credentials; otherwise the note is created with the session's token, title and content, and the reply is the created note or the failure with the backend's message (or "Unknown error") |
| Bot.SignIn | Clean.TelegramBot/Handlers/MessageHandler.cs:542-565 | a successful login stores the token, name and role and authenticates the session, without touching the conversation state or other chats |
| Bot.LoginThenNotes | Clean.TelegramBot/Handlers/MessageHandler.cs:542-545 | after a successful password login, `/notes` from the same chat fetches page 1 of size 10 with the token the backend returned, and changes no session |
| Bot.HandleCommand | Clean.TelegramBot/Handlers/MessageHandler.cs:70-113 | `/logout` is exactly the command that removes the session; commands other than `/login` keep the conversation state; every data call uses the session's own credentials |
| Bot.HandleStateInput | Clean.TelegramBot/Handlers/MessageHandler.cs:471-504 | only this chat's session changes, data calls use the session's credentials, and a consistent session never produces the generic error |
| Bot.ConversationSteps | Clean.TelegramBot/Handlers/MessageHandler.cs:471-504 | `awaiting_username` stores the user name and asks for the password; `awaiting_password` clears the state and TempData and logs in; the note title and content states work the same way; any other state does nothing |
| Bot.HandleButton | Clean.TelegramBot/Handlers/MessageHandler.cs:723-761 | every press is answered first, only this chat changes, and data calls use the session's credentials |
| Bot.CreateNoteButtonStartsConversation | Clean.TelegramBot/Handlers/MessageHandler.cs:742-750 | `create_note` moves an authenticated chat to `awaiting_note_title` and asks for the title; otherwise it asks the user to log in |
| Bot.CreateReminderButtonIgnored | Clean.TelegramBot/Handlers/MessageHandler.cs:723-761 | the `create_reminder` button only answers the callback |
| Bot.Step | Clean.TelegramBot/Handlers/MessageHandler.cs:32-68 | null text or a callback without a message does nothing; other chats never change; every data call is made with the stored session's credentials |
| Bot.StepText | Clean.TelegramBot/Handlers/MessageHandler.cs:36-38 | a text message is routed on its trimmed text, after the chat's session is created if absent |
| Bot.CommandsPreemptConversation | Clean.TelegramBot/Handlers/MessageHandler.cs:38-47 | trimmed text starting with `/` is a command even mid-conversation: only `/logout` removes the session and, except `/login`, the state is kept |
| Bot.PlainTextFollowsConversation | Clean.TelegramBot/Handlers/MessageHandler.cs:50-61 | other text goes to the state handler when a state is set, and otherwise gets only the "use a command" reply |
| Bot.MissingInputReportsError | Clean.TelegramBot/Handlers/MessageHandler.cs:481-488 | a password step without a stored user name ends in the generic error and changes nothing |
| Bot.NoErrorFromStart | Clean.TelegramBot/Handlers/MessageHandler.cs:63-67 | from consistent sessions, no sequence of updates ever produces the generic error reply, and sessions stay consistent |
| Int32.Wrap | Clean.Infrastructure/Repositories/NoteRepository.cs:23 | the C# `int` result of an arithmetic operation: in range, congruent to the exact value modulo 2^32, and equal to it when it fits |
| Int32.ToDecimalRoundTrip | Clean.Infrastructure/Repositories/Authentication/TokenRepository.cs:18 | `int.TryParse` of an int's decimal text gives the int back |
| Int32.TryParseSyntax | Clean.TelegramBot/Handlers/MessageHandler.cs:100 | anything `int.TryParse` accepts holds only white space, signs, digits and NULs, and a NUL is followed only by NULs |
| Int32.TrailingNulsIgnored | Clean.TelegramBot/Handlers/MessageHandler.cs:100 | digits followed by white space and then NULs parse to the digits' value |
| Text.Trim | Clean.TelegramBot/Handlers/MessageHandler.cs:38 | the result neither starts nor ends with white space |
| Text.TrimIsInfix | Clean.TelegramBot/Handlers/MessageHandler.cs:38 | the trimmed text is the original with only white space cut from both ends |
| Text.TrimIdempotent | Clean.TelegramBot/Handlers/MessageHandler.cs:38 | trimming twice is trimming once |
| Text.JoinSplit | Clean.Infrastructure/Services/TelegramInitDataVerifier.cs:26 | joining the pieces of `Split` with the separator gives back the string |
| Text.SplitJoin | Clean.Infrastructure/Services/TelegramInitDataVerifier.cs:26 | splitting the separator-joined pieces gives back the pieces |
| Text.ToLowerIdempotent | Clean.Infrastructure/Repositories/NoteRepository.cs:19 | lower-casing twice is lower-casing once, and the result holds no upper-case letter |
| Order.SortSet | Clean.Infrastructure/Services/TelegramInitDataVerifier.cs:50 | sorting a set under a total order lists each element exactly once, in order |
| Order.LexLeTotalOrder | Clean.Infrastructure/Services/TelegramInitDataVerifier.cs:50 | ordinal string comparison is a total order |

## Left out

- Network, mail and database I/O. These are the SMTP connect, authenticate and send calls, the bot's HTTP client, the Telegram client and EF Core's SQL. Backend answers and the database's rejection of a negative offset or page size are inputs to the model.
- Foreign calls, taken as function parameters (or, for `HashPassword`, as its result):
  - HMAC-SHA-256;
  - BCrypt `HashPassword`/`Verify`;
  - `Uri.UnescapeDataString`;
  - `JsonSerializer.Deserialize`;
  - `MailboxAddress.Parse`.
  No property of these functions is assumed, except that each returns instead of throwing (see the lines below).
- JWT serialisation and signing are not modelled. A token is represented by its content: claims, issuer, audience, expiry, algorithm and key.
- Tokens.GenerateJwtToken: a usable signing key is assumed, and the model always issues a token. The source throws when `Jwt:Key` is missing (`Encoding.UTF8.GetBytes` of null) or empty (`SymmetricSecurityKey`), and `WriteToken` can reject a key shorter than HMAC-SHA-256 allows. These exceptions, and the failed login they would cause, are not modelled.
- AuthRepository.Login: `BCrypt.Verify` is a total predicate in the model. The source's call throws when the stored hash is not a BCrypt hash string; that exception is not modelled.
- `Uri.UnescapeDataString` is a total function in the model. An exception it might throw is not modelled.
- The implementation of `PermissionAuthorizeAttribute` is not part of this model. The gate is modelled as "the required string is the value of one of the token's `Permission` claims", which matches the exact-value `RequireClaim("Permission", ...)` policies in `Clean.Web/Program.cs`.
- The `CanUpdate` policy in `Clean.Web/Program.cs` requires the claim value `Permission.CanAdd`, and no role is granted either string. Those policies are hosting configuration and not part of this model.
- There is no `auth_date` freshness check in the verifier, so the model has none.
- `OrderBy(k => k)` uses the culture-sensitive comparer. The model uses ordinal order instead, because culture data is not available to it.
- `ToLower` is modelled for ASCII letters only, because there is no Unicode case table in the model.
- Dates and times are integers: days for notes, 100 ns ticks for reminders and tokens. Time zones and `DateTime.Now` versus `UtcNow` are not modelled.
- Maximum lengths and other database constraints from the configuration classes and migrations are not modelled.
- NoteRepository.Create: the source never sets the note's `UserId`, so the row carries 0. In the database, the foreign key from `Notes.UserId` to `Users` (Clean.Infrastructure/Configuration/UserConfiguration.cs:13) rejects that insert, because identity values start at 1, and the call throws. The model has no foreign keys: it stores the row and returns 200.
- ReminderRepository.Create: the source sets neither `UserId` nor `Body`. In the database, `FK_Reminders_Users_UserId` (Clean.Infrastructure/Migrations/20251123212419_EmailUpdate.cs:44-50) rejects user id 0, and the call throws. `Body` is a non-null column there (:32-37), while the model stores a null body. The model stores the row and returns 200.
- The bot's keyboard layouts and message texts are labels, not strings. `/help`, `/logout` and `/menu` are modelled by their effect on the session.
- Concurrent access to the session dictionary is not modelled. Each update is one atomic step.
- A callback whose `Message` is null would throw at the `!` dereference. The model does nothing for it.
- The catch in `HandleLoginAsync` is not modelled. The client turns a transport failure into a 500 reply with the message "Connection error: …", which the model handles like any 500. A null reply only comes from a JSON `null` body, and the model handles it too. The catch is reached only when sending a Telegram message throws, and sending is modelled as always succeeding.
- Bot.Dispatch: the command test is an ordinal prefix test on `/`. The source's `StartsWith("/")` is culture-sensitive and skips ignorable code points, so a text such as "\u00AD/start" takes the command branch there but not in the model.
- The timer loop that calls `SendEmailEveryMinute`, the pass-through services, the interfaces, the web front end and the hosting code are not part of this model.
- Bot.Step: a backend answer is a single input per step, so each kind of backend call returns one fixed answer within a step.
- Int32.TryParse: culture-specific number formats are not modelled. Only the invariant format is modelled: leading white space, an optional sign, ASCII digits, trailing white space and then trailing NUL characters.
- Role: the numbers behind `Admin` and `User` are not known, because the enum declaration is not part of this model. `Undefined(n)` is not constrained to differ from them or to lie in the 32-bit range.
