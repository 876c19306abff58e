# Study-assistant backend: sessions, bearer gate, users and notes

This project models the service layer of the study-assistant backend (Go,
Fiber, gorm over PostgreSQL) and proves properties of the model:

- **Session policy** (`policy.dfy`): access/refresh lifetimes by client source
  ("extension": 1 h / 90 d, any other source: 15 min / 30 d), the fixed
  lifetimes of registration (24 h / 7 d), and login's "empty source means web".
- **Token codec** (`codec.dfy`): the HS256 JWT signer and parser as an abstract
  pair of functions with an ideal-MAC soundness predicate; issuing signs the
  claims `user_id`, `email`, `iat`, `exp`; verification checks
  the signature, then `exp` (valid while `now < exp`).
- **Bearer gate** (`gate.dfy`): the middleware's chain of early returns on the
  `Authorization` header, as a pure decision function.
- **Store** (`store.dfy`, `models.dfy`): the three tables (users keyed by id,
  refresh tokens keyed by their token string, notes in table order) as one
  class whose methods are the queries the services issue. Inserts carry the
  models' `BeforeCreate` hooks (a fresh id replaces any supplied one), the
  timestamps, the `source` column default `'web'`, and the primary-key,
  unique-index and foreign-key constraints. `Valid()` is the schema's
  invariant (unique emails, unique token strings, unique ids, non-empty stored
  source); `OwnersExist()` is the foreign-key invariant, and every mutating
  method preserves both.
- **Auth service** (`auth.dfy`): register, login, refresh-token rotation,
  logout, the expiry sweep, token parsing and user lookup.
- **User service** (`users.dfy`): profile read, partial profile update, password change.
- **Notes service** (`notes.dfy`, with `query.dfy`, `paging.dfy`,
  `domain.dfy`, `uuid.dfy`): the filtered, newest-first, paged listing; reading,
  creating (uuid parsing of the owner id, domain derivation from the source
  URL's host name), partially updating and deleting a note, all scoped by owner.
- **Scenarios** (`scenarios.dfy`): sequences of calls: single-use rotation,
  idempotent logout, a registration's access token at the gate, register then
  refresh, repeated delete.

The clock is an integer number of seconds passed to each operation as `now`.
The values the uuid generator would produce (the ids `BeforeCreate` assigns,
the random refresh-token string) are parameters named `fresh...`. The URL
parser enters as the parsed host name, `None` when the URL does not parse.

Two behaviours of the code that a reader might expect otherwise, which the model keeps:

- The gate gives an expired access token and a badly signed one the same
  401 "Invalid or expired token". There is no separate "expired" code
  (`Gate.ExpiredAndForgedLookAlike`).
- A refresh token is refused only when its expiry is strictly before `now`.
  A row that expires exactly at `now` still rotates (`Auth.AuthService.Refresh`,
  `Store.ExpiredRow`).

## Model

| member | source | states |
|---|---|---|
| Policy.PolicyTable | backend/internal/services/auth.go:222-249 | the lifetimes in seconds: "extension" 3600 access / 7776000 refresh; any other source, "web" and "" included, 900 / 2592000; the fixed path 86400 / 604800 |
| Policy.ExtensionLivesLonger | backend/internal/services/auth.go:222-249 | the extension's access and refresh lifetimes are both longer than any other source's |
| Policy.RefreshTtl | backend/internal/services/auth.go:243-249 | for every source a refresh token outlives the access token issued with it |
| Policy.AccessTtl | backend/internal/services/auth.go:223-229 | the access lifetime of a source is positive; its values are fixed by `Policy.PolicyTable` |
| Policy.LoginSource | backend/internal/services/auth.go:115-118 | an empty requested source becomes "web", a non-empty one is kept, so the source is never empty |
| Policy.EmptySourceIsWeb | backend/internal/services/auth.go:115-128 | a login with an empty source gets exactly the lifetimes of "web" |
| Codec.Issue | backend/internal/services/auth.go:230-237 | under a sound codec the token parses back to exactly the claims `user_id`, `email`, `iat` = now, `exp` = now + ttl |
| Codec.Verify | backend/internal/middleware/auth.go:34-40 | a verified token's claims are what the parser recovered with the secret and its expiry is still ahead; an unparseable or badly signed token fails on its signature |
| Codec.IssuedTokenLifetime | backend/internal/middleware/auth.go:34-40 | a token issued at `now` with lifetime `ttl` verifies with exactly its claims before `now + ttl` and reads as expired from then on |
| Codec.OtherSecretRejected | backend/internal/middleware/auth.go:34-36 | a token signed with another secret fails on its signature, never as expired |
| Codec.VerifiedWasSigned | backend/internal/middleware/auth.go:34-40 | whatever verifies was signed with the configured secret |
| Gate.Authenticate | backend/internal/middleware/auth.go:18-54 | empty header: 401 "Authorization header required"; no exact "Bearer " prefix: 401 "Invalid authorization header format"; every refusal is 401 |
| Gate.HasPrefix | backend/internal/middleware/auth.go:26 | the header starts with the prefix, character for character |
| Gate.TrimPrefix | backend/internal/middleware/auth.go:31 | one leading copy of the prefix is removed when present, otherwise the string is unchanged |
| Gate.AdmitsIssuedToken | backend/internal/middleware/auth.go:43-52 | a header with an unexpired token signed with the secret is admitted with the token's `user_id` and `email` |
| Gate.RejectsExpiredToken | backend/internal/middleware/auth.go:38-40 | a genuine token past its expiry is refused with 401 "Invalid or expired token" |
| Gate.AdmitsOnlyIssuedTokens | backend/internal/middleware/auth.go:26-52 | admission implies the header is "Bearer " plus a token signed with the secret whose expiry is ahead, and the context values are its claims |
| Gate.RejectsUnverified | backend/internal/middleware/auth.go:34-40 | any token after "Bearer " that fails verification, for any reason, gets 401 "Invalid or expired token" |
| Gate.ExpiredAndForgedLookAlike | backend/internal/middleware/auth.go:38-40 | an expired token and a token signed with another secret get the identical refusal |
| Gate.PrefixIsExact | backend/internal/middleware/auth.go:26-28 | "bearer " (lower case) and "Bearer" without the space are refused as badly formatted |
| Gate.OnePrefixRemoved | backend/internal/middleware/auth.go:31 | only one "Bearer " is stripped before verification |
| Store.ExpiredRow | backend/internal/services/auth.go:296 | a row is expired when its expiry is strictly before now, the test of the sweep and of refresh (line 148) |
| Store.StoredToken | backend/internal/models/token.go:18-28 | the stored row gets the fresh id and creation time, an empty source becomes "web", every other field is as supplied |
| Store.WithoutNote | backend/internal/services/notes.go:217 | the rows left are exactly those not matching both id and owner; the count drops iff some row matched |
| Store.WithoutNoteKeepsIdsDistinct | backend/internal/models/note.go:12 | deleting rows keeps note ids unique |
| Store.Db.Valid | backend/internal/models/user.go:10-20 | the schema invariant: each user row under its id, which is a canonical uuid as `BeforeCreate` assigns, unique emails (user.go:12), unique token strings (token.go:12) and token ids, unique note ids, non-empty stored token source |
| Store.Db.OwnersExist | backend/internal/models/user.go:18-19 | the foreign keys: every refresh token and every note belongs to a stored user |
| Store.Db.constructor | backend/internal/models/user.go:10-20 | an empty store satisfies the schema and foreign-key invariants |
| Store.Db.InsertUser | backend/internal/models/user.go:12-25 | the row gets the fresh id (a canonical uuid, as `uuid.New()` gives) and timestamps; a taken id or email is refused with the table unchanged; the invariants are kept |
| Store.Db.InsertRefreshToken | backend/internal/models/token.go:10-28 | a taken token string or id is refused, then an unknown owner; otherwise exactly the stored row is added under its token string |
| Store.Db.InsertNote | backend/internal/models/note.go:11-28 | a taken id is refused, then an unknown owner; otherwise the row with fresh id and timestamps is appended |
| Store.Db.FindUserByEmail | backend/internal/services/auth.go:63 | finds a user iff one has that email, and returns that stored row |
| Store.Db.FindOtherUserByEmail | backend/internal/services/user.go:68 | finds a row iff a user with a different id has that email |
| Store.Db.FindUserById | backend/internal/services/user.go:35 | finds a user iff the id is stored, and returns that row |
| Store.Db.FindNote | backend/internal/services/notes.go:98 | returns a position whose note has that id and owner, and none iff no row has both |
| Store.Db.SaveUser | backend/internal/services/user.go:79 | the row is overwritten and its update time set; other tables unchanged |
| Store.Db.SaveNote | backend/internal/services/notes.go:196 | the row is overwritten and its update time set; other rows unchanged |
| Store.Db.TouchRefreshToken | backend/internal/services/auth.go:160 | only `lastUsedAt` of that row changes, to now |
| Store.Db.DeleteRefreshToken | backend/internal/services/auth.go:187 | the table loses exactly the row with that token string, if any |
| Store.Db.DeleteRefreshTokenById | backend/internal/services/auth.go:163 | the rows with that id go; deleting a row's id is deleting its token string |
| Store.Db.DeleteExpiredRefreshTokens | backend/internal/services/auth.go:296 | exactly the rows with expiry strictly before now go, the others stay as they were |
| Store.Db.DeleteNote | backend/internal/services/notes.go:217 | the notes become `WithoutNote` of the old ones and the affected count is the number removed |
| Auth.AuthService.constructor | backend/internal/services/auth.go:53-58 | the service holds the store, the codec and the secret |
| Auth.AuthService.GenerateAccessToken | backend/internal/services/auth.go:191-201 | the token is the codec's signature, under the secret, of the user's claims with `iat` = now and `exp` = now + 86400 |
| Auth.AuthService.GenerateAccessTokenWithSource | backend/internal/services/auth.go:222-238 | the token is the signature of the user's claims with `iat` = now and `exp` = now + 3600 for "extension", now + 900 otherwise (also the public wrapper at lines 263-266) |
| Auth.AuthService.GenerateRefreshToken | backend/internal/services/auth.go:203-219 | adds the row (fresh id, token, user, now + 604800, now, "web", no last use, no device) or fails with the table unchanged |
| Auth.AuthService.GenerateRefreshTokenWithSource | backend/internal/services/auth.go:241-261 | a user id that is not a uuid panics (`uuid.MustParse`), modelled as `Aborted` with the table unchanged; otherwise the row is stored under the canonical form of the id, with the source's refresh lifetime, the source (default "web") and the device info, or the insert fails with the table unchanged (also the public wrapper at lines 268-271) |
| Auth.AuthService.Register | backend/internal/services/auth.go:60-98 | with a fresh canonical uuid as the new id: a taken email gives "user already exists" and changes nothing; otherwise the user row is added and a 24 h access token and a 7 d "web" refresh row are issued |
| Auth.AuthService.Login | backend/internal/services/auth.go:100-140 | unknown email and wrong password both give "invalid credentials" with no row created; otherwise tokens for the source ("" as "web") with its lifetimes |
| Auth.AuthService.IssueSession | backend/internal/services/auth.go:120-139 | for a stored user: a session whose access token is signed with the source's lifetime and whose refresh row carries the source, device and source's refresh lifetime, or "duplicate key" with the table unchanged |
| Auth.AuthService.Rotate | backend/internal/services/auth.go:158-182 | for a live row: the row is touched, then deleted by its id, and a session for the same source and device is issued against the table without the old token |
| Auth.AuthService.Refresh | backend/internal/services/auth.go:142-183 | unknown or expired (strictly before now) tokens give "invalid refresh token" with nothing changed; otherwise the old row is gone and one new row carries the same user, source and device with expiry now + the source's refresh lifetime |
| Auth.AuthService.Logout | backend/internal/services/auth.go:185-189 | always succeeds; the table loses exactly the row with that token string |
| Auth.AuthService.CleanupExpiredRefreshTokens | backend/internal/services/auth.go:294-297 | exactly the rows a refresh would refuse as expired go; the rest are untouched |
| Auth.AuthService.ParseToken | backend/internal/services/auth.go:273-283 | claims are returned iff the token verifies; they are the signed claims and not yet expired |
| Auth.AuthService.GetUserById | backend/internal/services/auth.go:285-292 | the stored user with that id, else "record not found" |
| Users.UserService.constructor | backend/internal/services/user.go:27-31 | the service holds the store |
| Users.UserService.GetProfile | backend/internal/services/user.go:33-49 | "user not found" iff the id is unknown; otherwise id, email and name of that user (the result has no password) |
| Users.UserService.UpdateProfile | backend/internal/services/user.go:51-90 | empty fields keep their value; another user's email gives "email already taken" with nothing saved; keeping one's own email always succeeds; only that user's row changes |
| Users.UserService.UpdatePassword | backend/internal/services/user.go:92-102 | a wrong old credential gives "incorrect password" with nothing changed; otherwise only the password (and the update time) change |
| Uuid.ParseUuid | backend/internal/services/notes.go:122-125 | what the uuid parser accepts (36, 45 "urn:uuid:", 38 braced, 32 bare-digit characters) and that the result is the canonical lower-case form |
| Uuid.CanonicalRoundTrip | backend/internal/services/notes.go:122-125 | an id in canonical form parses to itself |
| Uuid.AlternativeFormsAgree | backend/internal/services/notes.go:122-125 | the braced, urn and bare-digit spellings of an id parse to the same canonical id |
| Uuid.CaseInsensitive | backend/internal/services/notes.go:122-125 | spellings differing only in hex-digit case parse to the same id |
| Domain.Split | backend/internal/services/notes.go:135 | splitting gives at least one label |
| Domain.JoinSplit | backend/internal/services/notes.go:135-137 | joining the labels of a host name gives the host name back |
| Domain.SplitJoin | backend/internal/services/notes.go:135-137 | splitting a join of dot-free labels gives the labels back |
| Domain.LabelCount | backend/internal/services/notes.go:135-136 | there is one more label than there are dots |
| Domain.Join | backend/internal/services/notes.go:137 | joining labels with "." (`strings.Join`); `Domain.JoinSplit` and `Domain.SplitJoin` make it the inverse of `Domain.Split` |
| Domain.DomainOf | backend/internal/services/notes.go:135-140 | the domain of a host name: its last two labels when it has more than two, otherwise the host name; `Domain.DomainIsLastTwoLabels` states what that yields |
| Domain.DeriveDomain | backend/internal/services/notes.go:132-142 | an explicit domain is kept; with no source URL, or one that does not parse, none; otherwise the domain of the URL's host name |
| Domain.DomainIsLastTwoLabels | backend/internal/services/notes.go:135-140 | the derived domain is a suffix of the host with at most one dot; a host with at most one dot is its own domain; one with more keeps exactly what follows its second-to-last dot |
| Paging.NormalizePage | backend/internal/services/notes.go:63-65 | a page below 1 reads as 1, any other page as itself |
| Paging.NormalizePageSize | backend/internal/services/notes.go:66-68 | a page size below 1 reads as 10, any other as itself |
| Paging.Window | backend/internal/services/notes.go:69 | OFFSET/LIMIT: the length is the limit capped by what is left, and element j is element offset + j |
| Paging.Offset | backend/internal/services/notes.go:69 | a page starts on a multiple of the normalised page size, page p at block p - 1, so the pages tile the result from row 0 |
| Paging.Page | backend/internal/services/notes.go:63-69 | a page never holds more rows than the normalised page size |
| Paging.PagesCoverResult | backend/internal/services/notes.go:69 | for any requested page size, with n its normalised value, row k of the ordered result is row k mod n of page k / n + 1 |
| Paging.PagesCoverElements | backend/internal/services/notes.go:69 | for any requested page size, every row of the ordered result is on some page |
| Paging.PagesDisjoint | backend/internal/services/notes.go:69 | two different pages of a repetition-free result share no row |
| NoteQuery.Matches | backend/internal/services/notes.go:55-61 | the WHERE clause: the owner always, the source URL and the domain only when given |
| NoteQuery.Filter | backend/internal/services/notes.go:55-61 | exactly the notes of that owner matching each non-empty filter are kept, none added |
| NoteQuery.SortNewestFirst | backend/internal/services/notes.go:62 | the result is newest first and a permutation of the input |
| NoteQuery.NewestFirstUnique | backend/internal/services/notes.go:62 | when no two rows share a creation time, any two newest-first arrangements of the same rows are equal |
| NoteQuery.Listing | backend/internal/services/notes.go:55-62 | the listing is newest first and holds exactly the matching notes |
| NoteQuery.ListingHasNoRepeats | backend/internal/services/notes.go:55-62 | with unique note ids no note is listed twice |
| Notes.ToResponse | backend/internal/services/notes.go:77-87 | the response carries metadata iff the stored document is present and non-empty, and then that document |
| Notes.NotesPage | backend/internal/services/notes.go:53-73 | at most the normalised page size of rows, each a note of that owner matching the filters, newest first |
| Notes.NotesPagesDisjoint | backend/internal/services/notes.go:63-69 | two different pages of one listing have no note in common |
| Notes.NotesPagesCover | backend/internal/services/notes.go:55-69 | for any requested page size, every matching note of the owner is on some page |
| Notes.ListingOrderIsForced | backend/internal/services/notes.go:55-69 | when no two matching notes share `created_at`, every newest-first order of the matching rows is the listing, so each page query returns a page of that one sequence |
| Notes.DeleteIsFinal | backend/internal/services/notes.go:216-226 | after a delete no row with that id and owner remains |
| Notes.NotesService.constructor | backend/internal/services/notes.go:47-51 | the service holds the store |
| Notes.NotesService.GetNotes | backend/internal/services/notes.go:53-94 | the responses are the rows of `NotesPage`, in order, one response per row |
| Notes.NotesService.GetNoteById | backend/internal/services/notes.go:96-119 | a response iff a note has that id and owner, and then that note's; "note not found" otherwise |
| Notes.NotesService.CreateNote | backend/internal/services/notes.go:121-169 | an unparseable user id gives "invalid user ID" with nothing stored; otherwise one note is appended under the canonical owner id with the derived domain |
| Notes.PatchNote | backend/internal/services/notes.go:180-195 | each non-empty request field and a given metadata document replace the stored value; id, owner, creation and update time are left as they were |
| Notes.NotesService.UpdateNote | backend/internal/services/notes.go:171-214 | "note not found" with nothing saved unless id and owner match; then only that note changes: non-empty fields and given metadata overwrite, id, owner and creation time stay |
| Notes.NotesService.DeleteNote | backend/internal/services/notes.go:216-227 | removes exactly the rows with that id and owner; "note not found" iff there were none |
| Scenarios.RefreshTwice | backend/internal/services/auth.go:142-169 | after a successful rotation the old token string is gone and a second refresh with it fails |
| Scenarios.LogoutTwice | backend/internal/services/auth.go:185-189 | logging out twice leaves the same table as once |
| Scenarios.RegisterThenAuthenticate | backend/internal/services/auth.go:60-98 | a registration's access token is admitted at every instant before now + 86400 and refused with 401 "Invalid or expired token" at every instant from then on |
| Scenarios.RegisterThenRefresh | backend/internal/services/auth.go:60-183 | a refresh within 7 days of registering succeeds, drops the old string, and issues a "web" row of 30 days and a 900 s access token for the same user |
| Scenarios.DeleteTwice | backend/internal/services/notes.go:216-226 | the second delete of the same note reports "note not found" |

## Left out

- HMAC-SHA256 signing and base64url encoding of the JWT are not modelled. The codec is a pair of functions assumed sound (`Codec.Sound`), as an ideal MAC would be.
- The middleware's "Invalid token claims" branch is not modelled. The parser always fills in the claims type it was given, so that branch cannot be reached.
- The uuid generator, the clock and the URL parser are not modelled; their results are parameters. The clock is one integer per call, whereas the Go code reads `time.Now()` several times within one call. Sub-second time is not modelled, and neither is the RFC 3339 formatting of timestamps in note responses.
- JSON encoding and decoding of note metadata are not modelled: a document is its text, and a document that does not decode is not distinguished.
- Database failures other than the constraints (connection loss, timeouts) are not modelled. Errors the Go code ignores (the `last_used_at` update and the delete during rotation) cannot happen in the model.
- Postgres rejects a malformed uuid in a `WHERE id = ?` query with a syntax error. The model compares ids as strings, so such a lookup reads as not found.
- Lookups by id (`Store.Db.FindNote`, `Store.Db.FindUserById`, `Store.WithoutNote`, and the listing's owner filter `user_id = ?` in `NoteQuery.Matches`, and so the note listing, read, update and delete and the user lookups) compare ids as strings. Postgres casts the literal to uuid, so a valid but non-canonical spelling of a stored id (upper-case hex, braces, no hyphens) finds the row there but reads as not found in the model.
- Rows that tie on `created_at` keep table order. Postgres does not fix the order of ties, and each page is a separate query.
- Notes.NotesPagesDisjoint holds for the pages the service returns only when no two matching notes share a `created_at` (then `Notes.ListingOrderIsForced` makes every page query see the same order). With a tie, two page queries may order the tied rows differently, and one note can appear on two pages.
- Notes.NotesPagesCover holds for the pages the service returns only when no two matching notes share a `created_at`, for the same reason. With a tie, a note can appear on no page.
- Concurrency is not modelled: every operation runs alone. In particular, rotation is not claimed to be atomic against a concurrent refresh.
- Go's `int` overflow of `(page - 1) * pageSize` is not modelled (integers are unbounded).
- Signing errors are not modelled: HS256 with a byte-slice key does not fail.
- The HTTP handlers, routing, configuration loading, database connection and migration, the summariser, the notes statistics endpoint, the frontend and the browser extension are not part of this model.
- Registration is not transactional, in the model as in the Go code: a failed refresh-token insert returns the error but leaves the new user stored, and a retry then reads "user already exists".
