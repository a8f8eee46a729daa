# DailyAura core in Dafny

DailyAura is a devotional journaling app. Users register or sign in with Google, then file at most one
journal entry per day: chanting (with a number of rounds), reading, katha and a line of gratitude.
This project models the parts of the app that decide who may do what and what gets stored:

- the credential handlers (register, login, change password, forgot password, reset password);
- the Google verify callback (find or create by email) and the callback URL it is configured with;
- the bearer-token guard in front of protected routes, and the header the client attaches;
- the journal handlers (save today's entry, list a user's entries newest day first) and the two schemas;
- the client's form checks: the journal form and its request body, registration, login and the Google
  sign-in URL, reset, forgot-password, and the stored-token check that gates protected pages.

Handlers are pure transitions. Each one takes the request fields and the store, and returns the reply
together with the store after its writes. The modules are:

- `Users` and `Journal` model the collections, as sequences of records.
- `Crypto` supplies hashing and token signing as opaque functions. Two stated assumptions go with them:
  a password matches its own hash (`HashSound`), and a signed token verifies to the id it was signed
  over (`TokensSound`).
- `Text` models the JavaScript string operations the code relies on: truthiness, `trim`, `startsWith`,
  `split`, `parseInt` on decimal numerals, `.length` in UTF-16 code units, and code-point string order.
- `Routes` gives the server's `/api` mount, the Google routes and the listening port.
- `Dates` models `toISOString` and the `YYYY-MM-DD` day strings entries are filed under.
- `Scenarios` states journeys across client and server.

A request field is `Option<string>`, where absent stands for `undefined`. It is truthy when present and
non-empty.

## Model

| member | source | states |
|---|---|---|
| Auth.Register | server/src/controllers/authControllers.ts:13-39 | 201 exactly when all three fields are present and the email is not taken. A 400 leaves the store unchanged. A 201 appends one user with a fresh id, the submitted username and email, and the hash of the password. The store's unique-email invariant is kept. |
| Auth.RegisterAsWrittenRepliesTwice | server/src/controllers/authControllers.ts:25-37 | As written, a taken email makes the handler attempt two replies: 400 "Email already in use!", then 500 once the unique index refuses the save. Only the 400 reaches the client. The second `res.status(500).json` throws `ERR_HTTP_HEADERS_SENT`, and the route neither awaits nor catches that rejection. |
| Auth.RegisterAsWrittenAgrees | server/src/controllers/authControllers.ts:19-38 | The handler as written and the corrected one send the same first reply and leave the same store. The extra reply happens exactly when the email is taken. |
| Auth.RegisterAsWritten | server/src/controllers/authControllers.ts:13-39 | The handler as written, as the replies it attempts in order and the store after its writes. At least one reply is attempted. `RegisterAsWrittenRepliesTwice` and `RegisterAsWrittenAgrees` relate it to `Register`. |
| Auth.Login | server/src/controllers/authControllers.ts:41-77 | The status is one of 200, 400, 401 and 500. 400 exactly when a field is missing or no user has the email. For the user found by email: an absent stored password answers 500, because the comparison throws. A present hash that does not match answers 401, and a match answers 200. Only a 200 carries a token, signed over that user's id, with their id, username and email. In a valid store, 200 holds exactly when the password matches. |
| Auth.RegisterThenLogin | server/src/controllers/authControllers.ts:17-73 | Right after a successful registration, logging in with the same email and password succeeds as the new user. |
| Auth.ChangePassword | server/src/controllers/authControllers.ts:99-134 | 400 exactly when a field is missing. 404 exactly when no user has the id. For the user with that id, 200 holds exactly when the current password matches the stored one (an absent one compared as ""), and 401 otherwise. A refusal changes nothing. Success replaces only that user's password with the hash of the new one. |
| Auth.ChangePasswordThenLogin | server/src/controllers/authControllers.ts:120-130 | After a successful change, logging in with the new password succeeds. |
| Auth.ForgotPassword | server/src/controllers/authControllers.ts:136-178 | 400 exactly when the email is missing. 404 exactly when it is unknown; both leave the store unchanged. Otherwise only that user gains the token, expiring 15 minutes later. The reply is 200 when the mail is sent and 500 when not, and the token is kept either way. |
| Auth.ResetPassword | server/src/controllers/authControllers.ts:180-209 | 200 exactly when a password is given and some user holds the token unexpired. Success sets that user's hash and clears both reset fields, and touches no one else. A 400 changes nothing. |
| Auth.ResetSingleUse | server/src/controllers/authControllers.ts:188-199 | When no two users hold the same token, a token that has been used is refused at any later time, and the store stays unchanged. |
| Auth.ForgotThenReset | server/src/controllers/authControllers.ts:152-191 | A freshly issued token resets the password exactly when it is used less than 15 minutes after issue. |
| Auth.ForgotOverwritesToken | server/src/controllers/authControllers.ts:152-157 | A second reset request makes the first token useless. |
| Users.Create | server/src/models/userSchema.ts:15-23 | A save is refused exactly when username or email is empty or the email is already stored. Otherwise exactly one record with a fresh id is appended, and uniqueness of emails and ids is kept. |
| OAuth.GoogleVerify | server/src/config/passport.ts:28-49 | `done(null, false)` exactly when the profile has no email, and then nothing is touched. A known email signs in the stored user unchanged. An unknown email with a display name creates exactly one user, with that name and email and the federated password marker, and signs it in. Creation fails with an error exactly when the display name is empty. |
| OAuth.GoogleVerifyTwice | server/src/config/passport.ts:35-45 | A second sign-in with the same email resolves to the same account and creates nothing. |
| OAuth.CallbackUrl | server/src/config/passport.ts:9-15 | The URL always ends in the callback path. In production it is the backend URL followed by the path. Elsewhere it is `http://localhost:` followed by PORT and then the path, with 5050 when PORT is unset or empty. |
| OAuth.CallbackUrlReachesCallbackRoute | server/src/routes/authRoutes.ts:41-43 | The callback path is the router's `/auth/google/callback` under the `/api` mount. In development the URL's port text is the one the server parses to listen on. |
| Routes.Mounted | server/src/server.ts:26 | A router path is exposed as the `/api` mount followed by that path. |
| Routes.PortText | server/src/server.ts:33 | `PORT || "5050"`: PORT when it is set and non-empty, the text 5050 otherwise. |
| Routes.ListenPort | server/src/server.ts:33 | The server listens on PORT read as a decimal number, or on 5050 when PORT is unset or empty. |
| Guard.Authenticate | server/src/middleware/authMiddleware.ts:12-33 | 401 exactly when the header is missing or lacks the `Bearer ` prefix. The request proceeds exactly when the second space-separated part verifies, and then as the id it verifies to. Otherwise the answer is 403. |
| Guard.PrefixedHeaderHasToken | server/src/middleware/authMiddleware.ts:19-24 | A header with the prefix always has a second space-separated part: what follows the prefix up to the next space. |
| Guard.BearerHeader | client/src/api/api.ts:10-14 | A header is attached exactly when a truthy token is stored. It is the prefix followed by that token. |
| Guard.BearerRoundTrip | server/src/middleware/authMiddleware.ts:19-24 | A non-empty token without spaces, put in the client's header, is read back unchanged by the guard. |
| Guard.NoTokenUnauthorized | server/src/middleware/authMiddleware.ts:19-22 | Without a stored token, the guard answers 401. |
| Guard.SignedTokenAccepted | server/src/middleware/authMiddleware.ts:24-29 | A token signed for an id lets the request through as that id. |
| Journal.ParseStatus | server/src/models/journalSchema.ts:12 | Only "yes" and "no" are valid statuses. |
| Journal.RoundsRule | server/src/controllers/journalController.ts:18-24 | With the other fields present, a request is refused exactly when chanting is "yes" and rounds are absent or 0. Chanting "no" never needs rounds, and negative rounds pass. |
| Journal.ToEntry | server/src/models/journalSchema.ts:3-38 | A complete request becomes a document exactly when the three statuses are valid and the day is non-empty. The document is filed for the acting user under that day, with the submitted statuses and rounds and the gratitude trimmed, so it has no outer whitespace. |
| Journal.InsertEntry | server/src/models/journalSchema.ts:40 | The (user, date) index refuses exactly a second entry for the same user and day. Otherwise it appends, and one-entry-per-day is kept. |
| Journal.SaveInterleaved | server/src/controllers/journalController.ts:18-59 | 400 exactly for an incomplete request. 409 exactly when the checked store already has today's entry. 500 when validation or the index refuses the save. 201 appends exactly the new entry. Only 201 changes the store, and the one-entry-per-day invariant always holds. |
| Journal.Save | server/src/controllers/journalController.ts:6-60 | Run alone: 400, 409, 500 and 201 under the same conditions, with the store changed only by a 201 that appends today's entry for the acting user. |
| Journal.SecondSaveSameDayConflicts | server/src/controllers/journalController.ts:31-36 | After a 201, any complete request on the same day gets 409 and stores nothing. |
| Journal.RacedDuplicateIsServerError | server/src/controllers/journalController.ts:47-58 | When another save wins the day between the check and the write, the index refuses the write and the reply is 500, not 409. |
| Journal.SaveAllOnePerDay | server/src/models/journalSchema.ts:40 | Any sequence of submissions keeps at most one entry per user and day, and adds at most one entry each. |
| Journal.EntriesOf | server/src/controllers/journalController.ts:69 | The filter returns exactly the acting user's entries, each drawn from the store. |
| Journal.SortByDateDesc | server/src/controllers/journalController.ts:69 | The sort is a permutation whose adjacent entries never rise in date. |
| Journal.GetJournal | server/src/controllers/journalController.ts:62-85 | Retrieval returns exactly the acting user's entries, as a sub-multiset of the store, newest day first. |
| Journal.GetJournalStrictlyNewestFirst | server/src/controllers/journalController.ts:69 | With one entry per day, every earlier position holds a strictly later day. |
| Journal.GetJournalChronological | server/src/models/journalSchema.ts:30-35 | For entries filed under valid `YYYY-MM-DD` days, the returned order is reverse calendar order. |
| Dates.Today | server/src/controllers/journalController.ts:16 | The day is the prefix of the clock string up to the first `T`. |
| Dates.TodayOfIsoString | server/src/controllers/journalController.ts:16 | For a `toISOString` reading, the day is exactly that instant's `YYYY-MM-DD`. |
| Dates.ToIsoString | server/src/controllers/journalController.ts:16 | `toISOString` gives 24 characters with `T` at index 10. `TodayOfIsoString` shows the part before the `T` is the instant's `YYYY-MM-DD`. |
| Dates.FormatDateOrder | server/src/models/journalSchema.ts:30-31 | Day strings compare as the calendar days do, and distinct days print differently. |
| Text.JoinSplit | server/src/middleware/authMiddleware.ts:24 | Joining the parts of `split` on the same separator gives back the original string, so the split loses nothing. |
| Text.SplitJoin | server/src/middleware/authMiddleware.ts:24 | Splitting the join of separator-free parts gives those parts back. |
| Text.Split | server/src/middleware/authMiddleware.ts:24 | `split` on one character gives at least one part, and no part holds the separator. `JoinSplit` and `SplitJoin` make it the inverse of `join`. |
| Text.SplitPart | server/src/middleware/authMiddleware.ts:24 | `split(sep)[i]` exists exactly when there are more than `i` parts, and it holds no separator. |
| Text.Utf16Length | client/src/pages/Register.tsx:39 | `.length` counts UTF-16 code units: between the number of characters and twice that, and equal to it when every character is in the Basic Multilingual Plane. |
| Text.TrimEmptyIff | server/src/controllers/journalController.ts:23 | `Text.Trim` models `.trim()`: the trimmed text is empty exactly when every character is whitespace. |
| Text.TrimHasNoOuterSpace | server/src/models/journalSchema.ts:27 | Trimmed text neither starts nor ends with whitespace. |
| Text.LexLessIrreflexive | server/src/controllers/journalController.ts:69 | `Text.LexLess`, the datastore's code-point string order, never puts a string before itself. |
| Text.LexLessAsymmetric | server/src/controllers/journalController.ts:69 | No two strings each come before the other. |
| Text.LexLessTransitive | server/src/controllers/journalController.ts:69 | The order is transitive. |
| Text.LexLessTotal | server/src/controllers/journalController.ts:69 | Any two distinct strings are ordered one way or the other. |
| Text.LexLessConcat | server/src/controllers/journalController.ts:69 | With prefixes of equal length, the prefixes decide the order, and only equal prefixes defer to the rest. |
| Text.ParseInt | client/src/pages/Journal.tsx:25 | A digit string reads as its decimal value. A minus sign before digits reads as the negative value. Anything else reads as NaN. |
| Text.ParseIntNeedsDigit | client/src/pages/Journal.tsx:25 | Text without a decimal digit never reads as a number. |
| Dates.ParseIntOfDigits | client/src/pages/Journal.tsx:49 | A number typed as decimal digits parses back to itself. |
| Forms.JournalErrors | client/src/pages/Journal.tsx:21-34 | Each field has an error exactly when the page flags it: chanting, reading or katha unselected; chanting "yes" with rounds empty or parsing to at most 0; gratitude blank after trimming. Each error carries the page's message for its field. |
| Forms.FlaggedJournalFields | client/src/pages/Journal.tsx:24-30 | The fields flagged are exactly those whose `if` on the page holds. |
| Forms.JournalPayload | client/src/pages/Journal.tsx:44-54 | The body carries the chanting, reading and katha selections and the gratitude as typed. Rounds are sent only for chanting "yes". A whole number typed as digits, optionally after `-`, is sent as that number. Text with no digit is sent as null. |
| Forms.JournalFormPassesServerCheck | client/src/pages/Journal.tsx:39-54 | A form the page accepts, with numeric rounds, is never refused by the server as incomplete. |
| Forms.NegativeRoundsOnlyClientRejects | client/src/pages/Journal.tsx:25-27 | Every negative number typed as `-` and digits is refused by the form. It would travel as that negative value, which the server's check accepts. |
| Forms.NonNumericRoundsRefusedByServer | client/src/pages/Journal.tsx:25-49 | Non-empty rounds text with no digit passes the form. `Number` makes it NaN, 0 or Infinity, so the server refuses the entry as incomplete. The page's number field cannot hold such text. |
| Forms.RegisterErrors | client/src/pages/Register.tsx:34-56 | Each field has an error exactly when the page flags it, with the page's message. Lengths are counted in UTF-16 code units, as `.length` counts them. |
| Forms.UsernameProblem | client/src/pages/Register.tsx:37-41 | A blank username reads "required". Otherwise a username shorter than 4 UTF-16 code units reads "at least 4 characters". |
| Forms.AstralUsernameCountsTwice | client/src/pages/Register.tsx:39 | A username of two characters outside the Basic Multilingual Plane has `.length` 4 and is accepted. |
| Forms.RegisterSubmit | client/src/pages/Register.tsx:58-70 | A request is sent exactly when no field has an error. It carries username, email and password, without the confirmation. |
| Forms.RegisterFormPassesServerCheck | client/src/pages/Register.tsx:58-70 | A form whose fields pass every check on the page is sent, and the registration succeeds exactly when its email is not yet taken. |
| Forms.LoginErrors | client/src/pages/Login.tsx:41-53 | The email needs `@` and `.`, and the password needs at least 6 UTF-16 code units. Each failure carries the page's message. |
| Forms.LoginSubmit | client/src/pages/Login.tsx:55-66 | A request is sent exactly when both checks pass, with the fields as typed. |
| Forms.LoginFormPassesServerCheck | client/src/pages/Login.tsx:55-66 | A login the form sends gets 400 only for an unknown email. |
| Forms.GoogleAuthUrl | client/src/pages/Login.tsx:17-25 | In development the URL is `/api/auth/google`. Otherwise it is exactly the API base URL followed by `/auth/google`. |
| Forms.GoogleAuthUrlReachesGoogleRoute | server/src/routes/authRoutes.ts:35-38 | The development URL is the server's Google route under the `/api` mount. A base URL `<origin>/api` gives `<origin>` followed by that mounted route. |
| Forms.ResetErrors | client/src/pages/ResetPassword.tsx:34-43 | An error exactly for a new password shorter than 6 UTF-16 code units, and one exactly for a mismatched confirmation, each with the page's message. |
| Forms.ResetSubmit | client/src/pages/ResetPassword.tsx:45-58 | A request is sent exactly when both checks pass. The route token goes in the path, and the body holds only the new password. |
| Forms.ResetFormPassesServerCheck | client/src/pages/ResetPassword.tsx:45-58 | A reset the form sends succeeds exactly when some user holds the path's token unexpired. |
| Forms.ForgotSubmit | client/src/pages/ForgotPassword.tsx:11-22 | The message is cleared. An email without `@` or `.` sets the page's error and sends nothing. Otherwise the email is sent. |
| Forms.ForgotFormPassesServerCheck | client/src/pages/ForgotPassword.tsx:16-22 | An email the form sends is never refused as missing. It gets 404 exactly when unknown. |
| Forms.IsTokenValid | client/src/components/ProtectedRoute.tsx:7-10 | A token counts exactly when it is stored, is not "undefined" or "null", and is not blank. |
| Forms.ValidTokenIsSent | client/src/api/api.ts:10-14 | A token the protected pages accept is attached to requests as a bearer header. |
| Scenarios.LoginTokenAuthenticates | server/src/controllers/authControllers.ts:63-73 | The token from a successful login, sent back by the client, passes the guard as the id of the account with that email. |
| Scenarios.RegisterLoginAuthenticate | server/src/controllers/authControllers.ts:13-73 | A new account can log in at once, and its token passes the guard as the new id. |
| Scenarios.FormSavedOncePerDay | server/src/controllers/journalController.ts:16-53 | A form the page accepts, with valid statuses, is stored on a day with no entry, under that day's `YYYY-MM-DD`. Any later complete submission that day gets 409. |

## Findings

| source | as written | input that shows it | evidently intended | confidence | as-written member | corrected member |
|---|---|---|---|---|---|---|
| server/src/controllers/authControllers.ts:26-28 | the duplicate-email branch sends 400 but does not `return`, so the handler goes on to hash and save, then attempt a second reply (500) that throws `ERR_HTTP_HEADERS_SENT` | registering with an email that is already stored | answer 400 once and stop | high (not executed) | Auth.RegisterAsWrittenRepliesTwice | Auth.Register |

`Auth.RegisterAsWrittenAgrees` shows that the client still receives the 400. The store also ends the same,
because the unique index refuses the second save. The defect is the second reply attempted on an answered
request, which throws inside a route that neither awaits nor catches it. `Auth.Register` is the corrected handler, and the rest of the model uses it.

## Left out

- Hashing and token signing are opaque functions. bcrypt's salting and cost factor are not modelled.
- JWT expiry is not modelled, and neither is the secret. A token verifies or it does not.
- Auth.Login: a federated account's marker password is matched like any stored hash. The model does not
  say that no password matches it, because that depends on the hashing library.
- Datastore and library failures are not modelled, except the ones the model names: the absent stored
  password on login, the refused save on register, the failed mail on forgot-password, and the refused
  journal save.
- Reset-token generation (`randomBytes`) is a parameter of Auth.ForgotPassword. The same goes for the
  clock (`now`, `isoNow`) and email delivery (`mailSent`). The reset link and its email text are not
  modelled.
- Request bodies are modelled as absent or string fields. JSON values of other types (numbers where
  strings are expected, objects, arrays) are not modelled.
- Text.ParseInt: reads only an optional `-` followed by decimal digits. `parseInt` also accepts leading
  blanks and ignores trailing junk ("12abc" reads 12, "-2.5" reads -2). `Number` also accepts decimals
  and exponents. Those inputs are read as NaN here, so the page's flag on "-2.5" or "0.5" is not modelled.
- Forms.NonNumericRoundsRefusedByServer / Forms.JournalPayload: decimal and exponent rounds ("2.5", ".5",
  "1e3") are sent as `Number(...)` and stored by the server. The model has no fractional numbers: its
  payload sends such text as null, which the page does not do. The lemma is therefore stated only for text
  with no digit, where the page and the model agree.
- Only the journal save is modelled with two store snapshots (`SaveInterleaved`). Other handlers are not
  modelled under concurrency.
- The profile handler, the Google redirect after the callback, logging and the rest of the routing are
  not modelled. The React
  rendering, toasts and navigation are not modelled either.
- The request-validation middleware is not part of this model.
- Object ids are a counter, and emails and usernames are compared exactly as stored, without case
  folding.
