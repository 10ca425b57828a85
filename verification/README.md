# GoDjangGo in Dafny

GoDjangGo is a Django-style web framework in Go. Most of it wraps other libraries; this project models the
logic that is its own and proves what that logic is for. `dafny verify dfyconfig.toml` checks all of it.

| file | models |
|---|---|
| `GoStrings.dfy`, `Numerals.dfy`, `Base64.dfy`, `Options.dfy` | the parts of Go's `strings`, `strconv` and `encoding/base64` that the rest leans on (sections 4 and 5 of RFC 4648) |
| `AuthModel.dfy` | what one request does to users and sessions, as functions on values |
| `AuthHandlers.dfy` | the same request path as objects that update each other in place, proved equal to `AuthModel` |
| `AuthRuns.dfy`, `AuthSafety.dfy`, `CsrfRuns.dfy` | every interleaving of requests and table changes, and what holds over all of them |
| `AuthOutcomes.dfy` | what each request answers and leaves behind, told from the tables alone: who is held back, who is signed in, which password is stored |
| `Paths.dfy`, `Exemption.dfy`, `BodyLimits.dfy` | path cleaning, segment prefixes, stateless exemption, limits by prefix |
| `CsrfTokens.dfy`, `Passwords.dfy`, `ResetTokens.dfy` | the three string codecs |
| `SymbolicValues.dfy` | why the auth machine may treat encodings and tokens as constructors |
| `MigrationNames.dfy`, `MigrationCatalog.dfy` | migration file names and the collecting loop |
| `Permissions.dfy` | access tables, their joins, the grouping fold and the evaluation |
| `TrustedProxy.dfy`, `SessionStore.dfy`, `Env.dfy` | the forwarded-header walk, the session rows, the environment loader |

## How the model stands to the code

Code that changes state step by step is a method, on a class where the source has an object; each is proved
equal to a function of the old state, and the theorems are about those functions. A loop that ranges over a
Go map takes the order as a parameter or picks keys arbitrarily, so what is proved holds for every order.

Auth machine:

- A handler is one atomic step. Steps also create, edit and delete users, set passwords from the command
  line, and drop any session row at any time (expiry and cleanup). `AuthRuns.Enabled` asks that random values
  are never drawn twice and that application handlers do not write the framework's three session keys.
- The session manager is assumed to behave so: renewing drops the old key, mints a fresh one and keeps the
  data; destroying drops key and data, and a later write mints a fresh key; saving happens once, after the
  handler, and only for a modified session. A stored row is identified with its key; that the manager stores
  rows under a hash of the key is not visible.
- HMAC and PBKDF2 are datatype constructors in the auth machine, so two values are equal exactly when their
  inputs are. In `Passwords.dfy` and `ResetTokens.dfy` they are parameters, with injectivity asked for only
  where a lemma says so. `SymbolicValues.dfy` connects the two: written out as strings, encodings, reset
  tokens and CSRF secrets compare, check and expire exactly as the constructors do, for every text that may be
  presented and for passwords and secrets that do not collide.
- The database enforces the unique and foreign keys of its schema.

Where the code and its own words differ, the model follows the code:

- `web/csrf.go:255-257` and `docs/http-runtime.md:204-206` say that logout rotates the CSRF secret, the first
  through `Session.Cycle`, the second in both modes. `auth.Logout` only flushes (`auth/session.go:37-39`). In
  session mode the secret is lost with the session, in cookie mode the same secret stays in force:
  `CsrfRuns.LogoutNeverRotates`.
- `web/csrf.go:174-176` says that saving an already stored secret writes no row in session mode. The save is a
  `Put`, which marks the session modified (as `web/csrf.go:94-95` says), so the row is written again:
  `CsrfRuns.StoredSecretIsWrittenAgain`.
- `docs/http-runtime.md:217` says that CSRF secrets live inside the server-side session. That is so only with
  `UseSessions`; the default keeps them in the cookie (`web/csrf.go:117-149`).

Properties that fail in general are stated with the exact condition under which they hold:

- `normalizePrefix` is not idempotent: `Paths.NormalizeTwiceExactly`, with `"/a/ /"` in `Paths.NormalizeTwiceDiffers`.
- `LimitFor` and the middleware can disagree: `BodyLimits.AgreementOnPathExactly` for one path,
  `BodyLimits.AgreementExactly` for all, with `/api` and `/api/` in `BodyLimits.AmbiguousExample`.
- A reset token made before 1970 is never accepted: `ResetTokens.BeforeEpochNeverAccepted`.
- A reset token's text is not unique: an accepted text is a made one exactly when its part before the dash is
  canonical (`ResetTokens.AcceptedIsMadeExactly`). A plus sign, a leading zero and an upper-case letter are the
  ways out: `ResetTokens.PlusSignReadOver`, `LeadingZeroReadOver`, `UpperCaseReadOver`.
- A CSRF token's text is not unique: an accepted text is a minted token exactly when there is no white space
  around it and the unused bits of its last character are zero (`CsrfTokens.AcceptedIsMintedExactly`).
  `CsrfTokens.SpaceReadOver`, `CsrfTokens.TwinsUnmaskAlike` and `CsrfTokens.TwinExample` are the ways out.
- A cleanup told a time ahead of the clock can be noticed: `SessionStore.CleanupHiddenExactly`, with a run in
  `SessionStore.EarlyCleanupExample`.

## Model

| member | source | states |
|---|---|---|
| `AuthHandlers.Login` | `auth/session.go:20-35` | signing in cycles an anonymous session, flushes another user's, keeps the user's own, and then stores the id and the MAC: the whole new session and table |
| `AuthHandlers.Logout` | `auth/session.go:37-39` | logging out drops key, row and data, and nothing else; in particular it does not rotate the CSRF secret |
| `AuthHandlers.SessionUserID` | `auth/session.go:41-56` | valid exactly when id and MAC are the user's; a MAC that is present and wrong flushes the session |
| `AuthHandlers.RequestSession.Cycle` | `web/session.go:131-136` | the key is replaced, the data stays, and the CSRF secret is rotated if this request has CSRF state |
| `AuthHandlers.RequestSession.Flush` | `web/session.go:138-140` | key, row and data go, and the CSRF state of the request stays as it is |
| `AuthHandlers.RequestSession.Commit` | `web/session.go:92` | what the manager writes back: nothing for an untouched session, the row under its key or a minted one, or an expired cookie |
| `AuthHandlers.CsrfState.Save` | `web/csrf.go:112-149` | session mode stores the secret and marks the session modified; cookie mode sets the cookie and leaves the session alone |
| `AuthHandlers.CsrfState.Rotate` | `web/csrf.go:75-85` | the new secret is saved in the mode's store and becomes the one in memory |
| `AuthHandlers.EnterCsrf` | `web/csrf.go:151-217` | the stored or a drawn secret is in force and saved again; the request passes exactly when its method is safe, or its origin is right and its token carries that secret |
| `AuthHandlers.Authentication` | `web/auth_http.go:87-127` | attaches the active user whose id and current MAC the session holds, and flushes a session of a missing or inactive user or with a wrong MAC |
| `AuthHandlers.Manager.Authenticate` | `auth/manager.go:139-162` | a user is returned exactly when the name is known, the password checks and the user is active; a check that cannot be made is an error |
| `AuthHandlers.Manager.SetPassword` | `auth/manager.go:112-121` | the loaded user carries the new encoding even if its row is gone; the row, if any, gets the same encoding and nothing else changes |
| `AuthHandlers.Handlers.SignIn` | `web/auth_http.go:160-213` | blank or refused credentials leave the session alone; accepted ones sign the user in |
| `AuthHandlers.Handlers.SignInAs` | `web/router.go:24` | an application signs in a user it looked up by id, active or not |
| `AuthHandlers.Handlers.ChangePassword` | `web/auth_http.go:230-282` | every early return, and on success the stored password, the cycled session and the new MAC together |
| `AuthHandlers.Handlers.ConfirmReset` | `web/auth_http.go:360-392` | the password changes exactly when the user exists, the token checks and the new passwords are acceptable; the session is not touched |
| `AuthHandlers.Handlers.Serve` | `web/session.go:83-93` | sessions, CSRF, authentication, handler and commit together are one step on tables and cookies, as the value model says |
| `AuthRuns.Footprint` | `web/auth_http.go:87-282` | a request touches no row but the presented one, issues no key but fresh ones, and leaves the session with its old identity, none, or the one just signed in |
| `AuthSafety.GoodAfter` | `auth/session.go:20-56` | every step of every run keeps this: a row naming a user holds a MAC of an encoding drawn before, every key was drawn, and the name index is exact |
| `AuthSafety.ReachableIsGood` | `auth/session.go:20-56` | so it holds in every state reachable from empty tables |
| `AuthSafety.AttachedExactly` | `web/auth_http.go:87-127` | in every good state and for every request, the user that `Serve` attaches behind the CSRF middleware is exactly the active user whose id the presented session's row holds next to the MAC of the current password |
| `AuthSafety.AnonymousKeyNeverNamesUser` | `auth/session.go:20-35` | a key ever issued to an anonymous session never belongs to a session that names a user, in any continuation |
| `AuthSafety.GoneForever` | `auth/session.go:37-39` | a key that was dropped (logout, flush, rotation) never has a row again |
| `AuthSafety.ReplacedPasswordEvicts` | `web/auth_http.go:230-282` | once any step replaces a user's password, no key that named the user before ever authenticates again, in any continuation, even if the user signs in on it |
| `AuthSafety.EvictedIsNeverAttached` | `web/auth_http.go:87-127` | so no request that presents such a key is ever attached a user, after any continuation |
| `AuthSafety.ChangerStaysSignedIn` | `web/auth_http.go:264-281` | the session that changed the password authenticates as the same user, under a fresh key |
| `AuthSafety.OnlyDescendantsAuthenticate` | `web/auth_http.go:87-392` | after any replacement of a password, whatever authenticates as the user descends from the session that made the change or from a later sign-in of the user; after a reset or the management command, from such a sign-in alone |
| `AuthSafety.SignInMovesData` | `auth/session.go:20-35` | signing in from an anonymous session carries all its data to a new key and drops the old; from another user's session it carries nothing |
| `AuthSafety.InactiveSessionIsGone` | `web/auth_http.go:104-117` | a session seen while its user is deactivated or deleted is gone for good, even after reactivation |
| `AuthSafety.EncodingStep` | `auth/models.go:39-46` | any step leaves a user's encoding or replaces it by one never seen before |
| `AuthSafety.StaleForever` | `auth/session.go:50-54` | a session whose MAC is not that of its user's current password authenticates nobody in any continuation |
| `AuthSafety.ResetTokenSingleUse` | `web/auth_http.go:360-411` | in any run at most one confirmation succeeds for a token |
| `AuthSafety.ReplacedPasswordSpends` | `auth/token.go:68-83` | replacing the password in any way spends every token made from the old one |
| `AuthOutcomes.ForbiddenExactly` | `web/csrf.go:185-212` | a request is answered 403 exactly when it is a sign-in, sign-out, password change or reset, or one not marked safe, and its origin is wrong or its token is not that of the secret in force |
| `AuthOutcomes.ForbiddenChangesNothing` | `web/csrf.go:185-212` | then the accounts, the presented session's key, its identity and its own data are as they were |
| `AuthOutcomes.OtherRowsUntouched` | `web/session.go:83-93` | whatever is requested, only the presented session's row may go, and only the browser's session afterwards may be new or changed |
| `AuthOutcomes.AuthenticateMeans` | `auth/manager.go:139-162` | a match is exactly an active user of that name whose encoding verifies the password, and a failure exactly a user of that name whose encoding cannot be checked |
| `AuthOutcomes.SignInExactly` | `web/auth_http.go:160-213` | an admitted sign-in succeeds exactly when both fields are filled in and an active user of that name has that password; then the browser holds a session signed in as that user, and otherwise nobody is signed in |
| `AuthOutcomes.SignInAsExactly` | `web/router.go:24` | an application that looks a user up by id signs in exactly a user that exists |
| `AuthOutcomes.SignOutExactly` | `web/auth_http.go:215-221` | an admitted sign-out drops exactly the presented row and takes the cookie away |
| `AuthOutcomes.ChangePasswordExactly` | `web/auth_http.go:230-282` | an admitted change goes through exactly when the presented session is signed in as an active user, the old password verifies and the new ones fit; then exactly the new password verifies for that user, nothing else in the accounts changed, and the browser is signed in as the user; otherwise no account changes |
| `AuthOutcomes.ConfirmResetExactly` | `web/auth_http.go:360-411` | an admitted reset goes through exactly when the user exists, the token is of that user now, signed with a configured secret and not run out, and the new passwords fit; then exactly the new password verifies; nobody is signed in by it |
| `AuthOutcomes.SetPasswordExactly` | `auth/manager.go:104-121` | the command replaces the password of exactly the user of that name, by exactly the one given, and touches no session |
| `AuthOutcomes.CreateUserExactly` | `auth/manager.go:67-92` | a new user verifies exactly the password asked for, or none; an empty or taken name changes nothing |
| `AuthOutcomes.ViewExactly` | `web/auth_http.go:87-127` | a request that only looks leaves the session alone, except one that names somebody it is not signed in as, which is emptied |
| `AuthOutcomes.StoreExactly` | `web/session.go:83-93` | what an application stores is in the row afterwards, and nothing else changes |
| `CsrfRuns.HeldAfterRequest` | `web/csrf.go:151-217` | after every request the browser holds the secret in memory, or nothing after a session-mode request that ends flushed; the secret is the rotated one exactly after a request that reaches `Cycle` |
| `CsrfRuns.LogoutNeverRotates` | `auth/session.go:37-39` | a logout leaves the browser holding the secret in force in cookie mode, and nothing in session mode |
| `CsrfRuns.StoredSecretIsWrittenAgain` | `web/csrf.go:173-179` | in session mode a request that finds its secret stored and leaves the session alone still ends with a modified session and its cookie sent again |
| `CsrfRuns.HandedTokenVerifiesNext` | `web/csrf.go:240-250` | a token handed out by one request is accepted on the next exactly when the request did not lose the secret |
| `CsrfRuns.HeldOverRun` | `web/csrf.go:126-149` | over any run the browser still holds a secret exactly when it held it at the start and none of its requests rotated or lost it |
| `CsrfRuns.TokenLifetime` | `web/csrf.go:262-268` | a token is accepted at the end of any run exactly when no request of the browser in between reached `Cycle` or, in session mode, ended flushed |
| `Paths.CleanPathLoop` | `web/stateless.go:114-139` | the code's loops compute the one-pass cleaning; the collapsing loop ends because each pass shortens the string |
| `Paths.ReplaceDoubleKeepsSegments` | `web/stateless.go:115-118` | collapsing `//` never changes what a path resolves to, so that loop could be deleted |
| `Paths.CleanPathCanonical` | `web/stateless.go:114-139` | a cleaned path starts at the root, splits into the resolved segments with nothing empty, `.` or `..` between, keeps its trailing separator, and cleaning again changes nothing |
| `Paths.MatchIsSegmentPrefix` | `web/stateless.go:141-164` | for every path and every prefix that is not blank, the string tests answer whether the prefix's segments start the path's |
| `Paths.NormalizeTwiceExactly` | `web/stateless.go:141-151` | normalizing twice equals normalizing once exactly when the last resolved segment does not end in white space |
| `Paths.NormalizeTwiceDiffers` | `web/stateless.go:144-149` | `"/a/ /"` is a prefix on which the second pass differs |
| `Paths.ResolvingLaws` | `web/stateless.go:119-133` | what resolving means, as laws that reduce every path: empty and `.` segments vanish, `..` takes back the segment before it and nothing at the root, plain segments stay |
| `Paths.UsableMeans` | `web/stateless.go:68-82` | a usable prefix is a rooted one that leaves some path uncovered |
| `Paths.Match` | `web/stateless.go:52-63` | a request matches exactly when some declared prefix covers its segments |
| `Paths.Validate` | `web/stateless.go:68-82` | accepts exactly the lists of usable prefixes; otherwise the first bad prefix decides the error |
| `Paths.RequestPath` | `web/stateless.go:104-112` | an empty path is read as the root, which cleans to the same |
| `Exemption.Chain` | `web/security.go:24-29` | the loop from the last middleware to the first makes the first one outermost |
| `Exemption.ExemptDistributes` | `web/stateless.go:35-49` | exempting each member of a block is exempting the block; a matching request reaches the handler marked and no member runs |
| `BodyLimits.Validate` | `web/bodylimit.go:59-76` | the verdict is the same for every map order: the default and every limit positive, and every trimmed prefix starting at the root |
| `BodyLimits.CorrectMeans` | `web/bodylimit.go:87-114` | the right limit in terms of segments alone: that of a key whose segments start the path and are not fewer than those of any other such key, or the default when no key does |
| `BodyLimits.LimitForLoop` | `web/bodylimit.go:132-142` | the running maximum gives the limit of a prefix covering the path with the most segments, or the default |
| `BodyLimits.CoveringLengths` | `web/bodylimit.go:87-93` | among prefixes covering one path, byte length orders as segment count does, and equal lengths mean equal normalized prefixes |
| `BodyLimits.Prepare` | `web/bodylimit.go:87-97` | for any two map orders and any order of ties, the prefixes are sorted longest first and the table holds their limits |
| `BodyLimits.FirstMatchCorrect` | `web/bodylimit.go:87-114` | for any map orders and any order of ties, the first match is the limit of a covering prefix with the most segments, or the default |
| `BodyLimits.Admit` | `web/bodylimit.go:107-123` | the first match is a covering prefix with the most segments, or the default; a declared length is refused exactly when it is over that limit |
| `BodyLimits.AgreementOnPathExactly` | `web/bodylimit.go:83-142` | for any configuration, middleware and `LimitFor` agree on one path for every order exactly when the longest prefixes of that path carry one limit |
| `BodyLimits.AgreementExactly` | `web/bodylimit.go:83-142` | middleware and `LimitFor` agree on every path and every order exactly when no two keys that normalize alike carry different limits |
| `BodyLimits.AmbiguousExample` | `web/bodylimit.go:83-142` | the keys `/api` and `/api/` with different limits form a valid configuration on which the two disagree for some order |
| `Base64.RawRoundTrip` | `web/csrf.go:291-302` | decoding undoes unpadded encoding for every byte string |
| `Base64.StdRoundTrip` | `auth/password.go:42-68` | decoding undoes padded encoding for every byte string |
| `Base64.SameBits` | `web/csrf.go:291` | three bytes and their four sextets are one number of 24 bits, most significant first |
| `CsrfTokens.MaskLoop` | `web/csrf.go:278-292` | the byte loop computes mask followed by mask xor secret, encoded; a secret of another length is refused |
| `CsrfTokens.UnmaskLoop` | `web/csrf.go:294-307` | the byte loop xors the two halves of what a token of the pattern decodes to |
| `CsrfTokens.MaskRoundTrip` | `web/csrf.go:278-309` | masking gives 86 characters of the URL alphabet, and unmasking gives the secret back, whatever the mask |
| `CsrfTokens.TokenCarries` | `web/csrf.go:286-291` | a token decodes to its mask and, after it, the secret under the mask byte by byte |
| `CsrfTokens.CoveredHalfSaysNothing` | `web/csrf.go:278-292` | every secret has exactly one mask that gives a covered half, so that half alone says nothing of the secret |
| `CsrfTokens.MintedTokenValidExactly` | `web/csrf.go:311-314` | a token minted from one secret is valid for another exactly when they are equal |
| `CsrfTokens.MintedPairsExactly` | `web/csrf.go:316-322` | two minted tokens pair exactly when they carry one secret |
| `CsrfTokens.PatternUnmasks` | `web/csrf.go:294-309` | a string unmasks exactly when it has the pattern |
| `CsrfTokens.LowBitsIgnored` | `web/csrf.go:298-306` | two tokens decode alike exactly when they differ at most in the low four bits of the last character, and then unmask alike |
| `CsrfTokens.UnmasksExactly` | `web/csrf.go:278-307` | a text unmasks to a secret exactly when it is, up to those four bits, the token some mask gives for it |
| `CsrfTokens.ValidTextsExactly` | `web/csrf.go:311-314` | a text is valid for a secret exactly when, trimmed, it is such a spelling of a token minted from it |
| `CsrfTokens.AcceptedIsMintedExactly` | `web/csrf.go:278-314` | a text valid for a secret is a token some mask gives for it exactly when it is its own trimming and the low four bits of its last character are zero |
| `CsrfTokens.SpaceReadOver` | `web/csrf.go:311-314` | a space in front of any text changes nothing |
| `CsrfTokens.TwinsUnmaskAlike` | `web/csrf.go:294-307` | every token has another text that unmasks to the same secret |
| `CsrfTokens.TwinExample` | `web/csrf.go:294-307` | 86 letters A and 85 letters A with a B are two such texts |
| `Numerals.FormatIntRoundTrip` | `auth/token.go:26-42` | parsing undoes formatting for every 64-bit integer in every base from 2 to 36 |
| `Numerals.PrintedExactly` | `auth/token.go:26-42` | a text that reads as a number from zero on is the printed one exactly when it is canonical: lower-case digits, no sign, no leading zero |
| `Passwords.EncodeCheckRoundTrip` | `auth/password.go:32-85` | an encoded password checks with no update asked for, and another password passes exactly when its derived key is equal |
| `Passwords.VerifiesExactly` | `auth/password.go:51-85` | over every text: a password verifies exactly against four fields that hold the key it derives in the number of rounds named there, and an update is asked for exactly when that number is not 1,800,000 |
| `Passwords.OtherCountsVerify` | `auth/password.go:76-85` | an encoding made with any positive number of rounds verifies exactly the passwords of equal derived key, and asks for an update exactly when the number is not 1,800,000 |
| `Passwords.UnknownExactly` | `auth/password.go:51-62` | a text is of an unknown algorithm exactly when it is not unusable and its first field is not `pbkdf2_sha256` |
| `Passwords.EncodingsDiffer` | `auth/password.go:37-48` | two encodings are equal exactly when salts and derived keys are |
| `Passwords.UnusableNeverVerifies` | `auth/password.go:32-89` | an unusable encoding verifies no password; an update is asked for only of a password that passed |
| `ResetTokens.Check` | `auth/token.go:31-59` | the loop with its early returns accepts exactly well-formed tokens in the window signed with the primary or a fallback secret |
| `ResetTokens.SignedValueInjective` | `auth/token.go:73-79` | the NUL-joined value is injective in all five fields when id, password hash and last login hold no NUL |
| `ResetTokens.AcceptedExactly` | `auth/token.go:21-59` | a token made from the epoch on is accepted at n exactly when t <= n <= t + timeout (no upper end at the largest timeout), there is a primary secret, the token was made with it or a fallback, and the user's signed fields are unchanged |
| `ResetTokens.AcceptedIsMadeExactly` | `auth/token.go:21-59` | over every string: an accepted text is one that was made for this user exactly when its part before the dash is canonical, and respelling that part canonically always gives one that was made |
| `ResetTokens.BeforeEpochNeverAccepted` | `auth/token.go:35-42` | a token made before the epoch is never accepted, because the first dash is the minus sign |
| `ResetTokens.PlusSignReadOver` | `auth/token.go:35-42` | an instance: a token with a plus sign in front is accepted exactly when the token is |
| `ResetTokens.LeadingZeroReadOver` | `auth/token.go:35-42` | an instance: likewise with a zero in front |
| `ResetTokens.UpperCaseReadOver` | `auth/token.go:35-42` | an instance: likewise with any letter of the instant in upper case, which is another text |
| `SymbolicValues.CheckRefines` | `auth/password.go:51-85` | checking a written encoding answers as the machine's check, errors included, and never asks for an update |
| `SymbolicValues.WrittenInjective` | `auth/password.go:32-49` | two written encodings are equal exactly when raw password and salt, or the unusable text, are |
| `SymbolicValues.ResetCheckRefines` | `auth/token.go:31-83` | the generator accepts a text exactly when the machine's check accepts the token it reads as, for every spelling of the instant and every MAC, forged ones included |
| `SymbolicValues.ResetTextsExactly` | `auth/token.go:31-83` | over every string: a text is accepted exactly when it reads as some token the machine accepts |
| `SymbolicValues.MadeTextReads` | `auth/token.go:21-29` | the text made for a user reads as the token of its secret, user and instant |
| `SymbolicValues.ResetTextSingleUse` | `web/auth_http.go:360-411` | in any run at most one confirmation succeeds among requests whose token texts carry one signature, however the instant is spelt |
| `SymbolicValues.CsrfCheckRefines` | `web/csrf.go:185-212` | for every presented text the middleware's test on texts is the machine's test on secrets |
| `SymbolicValues.MintedPresents` | `web/csrf.go:278-314` | a text minted from a secret presents that secret |
| `SymbolicValues.CookieCarriesSecret` | `web/csrf.go:126-149` | in cookie mode the last cookie's text unmasks to the secret in memory and pairs with every token the request hands out, whatever the masks |
| `MigrationNames.ParseExactly` | `migrations/migrations.go:28-30` | a name parses to four parts exactly when they are well formed and print to it, with or without `.tx` |
| `MigrationNames.PatternExactly` | `migrations/migrations.go:28-30` | the pattern spelled out: fourteen digits, a name of digits, lower-case letters, `_` and `-`, an optional dialect, an optional `.tx`, a direction |
| `MigrationNames.ParsePrint` | `migrations/migrations.go:28-30` | every well-formed name is read back to the parts it was made from |
| `MigrationNames.ScaffoldReadsBack` | `migrations/migrations.go:164-176` | exactly the names of the scaffold pattern are taken; both names made end in `.tx.up.sql` and `.tx.down.sql` and parse back to the timestamp and name, no variant |
| `MigrationCatalog.Gather` | `migrations/migrations.go:61-125` | walking all files succeeds exactly when no filesystem is nil, no walk breaks off, all migrations can be read and no two files clash, and then records exactly the named files; an error has its cause among them |
| `MigrationCatalog.ResolveAll` | `migrations/migrations.go:127-142` | for every map order, resolution succeeds exactly when each pair has both directions, and yields the sorted names and both files of each |
| `MigrationCatalog.CollectForDialect` | `migrations/migrations.go:48-149` | success exactly on collectable input, a condition on the multiset of files with no order in it, including that walks and reads work and that discovery takes the catalog; then the catalog those files stand for; every error reported has its cause |
| `MigrationCatalog.CollectableMeans` | `migrations/migrations.go:48-136` | collectable, by file names alone: every SQL file is readable and of the pattern, two files of one identity share name and app and differ in dialect or direction, and each identity has both directions in the dialect or in none |
| `MigrationCatalog.ProvidedExactly` | `migrations/migrations.go:128-139` | a file of the dialect is in the catalog under its app and name; a file of no dialect is there exactly in place of one that is missing |
| `MigrationCatalog.OnlyProvided` | `migrations/migrations.go:127-142` | the names are those of the files, and nothing is in the catalog that no file stands for |
| `MigrationCatalog.WalkedFiles` | `migrations/migrations.go:64-125` | the files collected are those of all walks |
| `MigrationCatalog.LessMeans` | `migrations/migrations.go:142` | names are ordered by their first difference, a proper prefix first |
| `MigrationCatalog.CatalogUnique` | `migrations/migrations.go:127-153` | the catalog of a multiset of files is unique: names strictly ascending, one per identity, and each direction the dialect's variant or else the shared file |
| `Permissions.ApplyRefines` | `auth/bun_store.go:182-293` | each create or grant on the tables is the same operation on relations between names, with the same answer, and keeps the keys sound |
| `Permissions.RunRefines` | `auth/bun_store.go:182-293` | so is every run of them, failures included |
| `Permissions.GrantsAreIdempotent` | `auth/bun_store.go:212-329` | a grant returns no error exactly when its edge exists afterwards, and repeating it changes nothing |
| `Permissions.MadeEdges` | `auth/bun_store.go:212-329` | a grant adds the one edge it names exactly when both ends exist, and answers accordingly; no operation adds or removes any other edge |
| `Permissions.MadeNames` | `auth/bun_store.go:182-210` | a create adds the one name it names, unless that is empty or not a permission; no operation adds or removes any other |
| `Permissions.TransactionRefines` | `auth/bun_store.go:295-302` | a transaction keeps all its block did or nothing, and commits exactly when the same block over relations ends without error, whatever the block makes of each answer and whether or not a failed statement aborts |
| `Permissions.AbortingExactly` | `auth/bun_store.go:295-302` | where a failed statement aborts the transaction, a block commits what it would commit elsewhere when none of its statements names a missing user and something that exists, and nothing otherwise |
| `Permissions.SequenceExactly` | `auth/bun_store.go:295-302` | a block that returns the first error commits exactly when every operation answers, and then leaves what the run of them leaves |
| `Permissions.SequenceMeans` | `auth/bun_store.go:295-302` | such a block in a transaction leaves the tables its operations leave one by one, or, if any of them fails, as they were |
| `Permissions.Store.GrantGroupPermission` | `auth/bun_store.go:264-329` | the insert and the affected-or-exists rule together, as the table operation says |
| `Permissions.Store.GrantUserPermission` | `auth/bun_store.go:212-238` | likewise for a user's own permission; a missing user fails the foreign key and changes nothing |
| `Permissions.Store.AddUserToGroup` | `auth/bun_store.go:240-262` | likewise for a membership |
| `Permissions.Store.CreateGroup` | `auth/bun_store.go:182-195` | an empty name is refused; a taken name is left alone without error |
| `Permissions.Store.CreatePermission` | `auth/bun_store.go:197-210` | an invalid permission is refused; a taken one is left alone without error |
| `Permissions.FoldRows` | `auth/bun_store.go:144-156` | the loop over the rows gives the group names by first appearance and each group's permissions in row order |
| `Permissions.GroupLoop` | `auth/bun_store.go:144-159` | so the user's groups are those, in that order |
| `Permissions.GroupedExactly` | `auth/bun_store.go:116-161` | the fold over the left join gives one group per membership with exactly its permissions, each once, for every row order |
| `Permissions.HasPermission` | `auth/permissions.go:60-66` | true exactly for a valid permission of an active user: registered for a superuser, else direct or through a group |
| `Permissions.UserPermissions` | `auth/permissions.go:10-21` | exactly the valid direct permissions of an active user |
| `Permissions.GroupPermissions` | `auth/permissions.go:23-36` | exactly the valid permissions of an active user's groups |
| `Permissions.AllPermissions` | `auth/permissions.go:38-58` | the set of exactly those permissions |
| `Permissions.PermissionExactly` | `auth/permissions.go:38-66` | after any run of creates and grants, a loaded user has a permission exactly when the user is active, it is an application's label, a dot and a codename, and it is registered, for a superuser, or there is a direct edge or a group path to it, for anyone else |
| `Permissions.AccessExactly` | `auth/permissions.go:10-66` | the same on the rows of the tables: a row of the user's own, or a membership row and a grant row of one group; nobody has nothing |
| `Permissions.ValidMeans` | `auth/permissions.go:68-71` | a valid permission is a label and a codename, neither empty nor with a dot, and one dot between |
| `TrustedProxy.ForwardedAddresses` | `web/security.go:383-397` | a list exactly when the header is not blank and every entry parses, and then all entries in order |
| `TrustedProxy.ForwardedScheme` | `web/security.go:339-352` | the loop from the right computes what the entries say |
| `TrustedProxy.SchemeFromMeans` | `web/security.go:330-352` | without walking: nothing when all entries are blank, else what the last entry that is not blank says |
| `TrustedProxy.PrefixContains` | `web/security.go:418-428` | true exactly for a valid address inside some declared network |
| `TrustedProxy.Walk` | `web/security.go:299-306` | the loop from the right gives the rightmost untrusted address, or the peer |
| `TrustedProxy.SplitJoinedLines` | `web/security.go:326-328` | splitting the joined header lines gives the entries of each line in turn |
| `TrustedProxy.RightmostUntrustedMeans` | `web/security.go:299-306` | the walk answers the untrusted entry after which all are trusted, or the peer when all are |
| `TrustedProxy.Resolve` | `web/security.go:287-318` | the whole middleware gives the client of all address lines and the scheme of all scheme lines |
| `TrustedProxy.UndeclaredPeerIgnored` | `web/security.go:292-295` | a peer outside every declared network, or with no address, is itself the client and keeps the observed scheme, whatever its headers say |
| `TrustedProxy.DeclaredPeerClient` | `web/security.go:299-306` | from a declared peer the client is the last address that lies in no declared network, or the peer when all do or an entry does not parse |
| `TrustedProxy.DeclaredPeerScheme` | `web/security.go:308-316` | from a declared peer the scheme is what the last entry that is not blank says, if that is http or https in any case, else the observed one |
| `TrustedProxy.PrependedLinesForClient` | `web/security.go:295-306` | when the proxy's own lines parse and hold an untrusted address, lines put in front change nothing if they parse, and give the peer if they do not |
| `TrustedProxy.PrependedLinesForScheme` | `web/security.go:339-352` | when the proxy's lines hold an entry that is not blank, nothing put in front changes the scheme |
| `SessionStore.SessionRows.SaveSession` | `auth/session_store.go:27-43` | an upsert of the bytes as they are now; an empty key is refused and changes nothing |
| `SessionStore.SessionRows.StoredSession` | `auth/session_store.go:45-62` | the row's bytes in a fresh array, or not found |
| `SessionStore.SessionRows.DeleteExpiredSessions` | `auth/session_store.go:72-81` | exactly the rows with expiry at or before the given time go, and their number is returned |
| `SessionStore.Adapter.FindCtx` | `web/session_store.go:47-62` | the answer is a lookup that sees only rows ahead of the clock, in a fresh copy; an expired row is deleted |
| `SessionStore.Adapter.CommitCtx` | `web/session_store.go:64-75` | the bytes are stored as they are at the call; an empty token is refused |
| `SessionStore.Adapter.DeleteCtx` | `web/session_store.go:43-45` | the row goes, and no other |
| `SessionStore.FindReadsLastWrite` | `web/session_store.go:47-75` | in any orderly run the table shows, under each key, what was last written, not deleted and not expired |
| `SessionStore.CleanupUnobservable` | `auth/session_store.go:72-81` | removing every cleanup step from an orderly run changes no answer |
| `SessionStore.CleanupScheduleIrrelevant` | `auth/session_store.go:72-81` | two orderly runs that differ only in cleanup steps answer alike |
| `SessionStore.CleanupHiddenExactly` | `auth/session_store.go:72-81` | one cleanup changes no answer of any orderly continuation, and no lookup from its instant on, exactly when it takes no row still ahead of the clock |
| `SessionStore.EarlyCleanupExample` | `auth/session_store.go:72-81` | a run with a cleanup ahead of the clock in which a row is not found that would be without it |
| `Env.Schema.Validate` | `env/env.go:156-201` | the loop with its seen set yields the assignments and errors of all declarations in order |
| `Env.OneVerdictEach` | `env/env.go:156-201` | each declaration yields exactly one assignment or one error |
| `Env.LoadableExactly` | `env/env.go:156-215` | there is no error exactly when names are distinct and each declaration has a name, a target and a readable value or a fitting default |
| `Env.Schema.Load` | `env/env.go:106-154` | it loads exactly when there is a current directory, the chosen file is not broken, names are distinct and every declaration is supplied; then each target holds what is due to the last declaration pointing at it: the reading of the environment's text, failing that of the file's, failing both the default; else no target changes |
| `Env.EnvironmentMeans` | `env/env.go:85-89` | the environment read is that of the last option giving one, or the process's |
| `Env.DirectoryMeans` | `env/env.go:92-96` | the directory is that of the last option giving one, or the current one |
| `Env.DotEnvMeans` | `env/env.go:99-103` | the file is read exactly when no option switches it off |
| `Env.Overlay` | `env/env.go:119-142` | whatever order a map is ranged over in, the later source wins |
| `Env.ParsedAssignment` | `env/env.go:217-274` | a value is assigned exactly when there is a target and the text reads as a value of its type, and then that value fits it; the three errors stand for no target, a type no text is ever read as, and a text that is not one of its type |
| `Env.ReadItems` | `env/env.go:239-250` | the loop keeps the trimmed items that are not blank |
| `Env.ListRoundTripExactly` | `env/env.go:239-250` | a list survives joining and reading exactly when each item is trimmed, not blank and free of commas |
| `Env.IntegerRoundTripExactly` | `env/env.go:257-262` | a printed integer is read back exactly when it fits the target's width |

## Left out

- Session lifetime and idle timeout, remembering sessions, and the manager's hashing of keys: in the auth machine a row can only be dropped, at any time.
- Errors of the database, the random source and the session manager inside a request; malformed forms; a missing session or an empty session secret.
- Concurrent requests: a handler is one step. Two confirmations of one reset token that overlap could both succeed, because the update compares nothing.
- `passwordReset`, which only mails a token, and the encoding of user ids in links; the token that arrives is part of the request.
- NFKC normalization of usernames and lower-casing of email domains: names and addresses are taken as normalized.
- Rendering, redirects, HTMX, `IsSafeRedirect`, `absoluteURL` and origin parsing: whether a request's origin matches is an input.
- The timing of hashing for unknown users, constant-time comparison, and the strength of HMAC and PBKDF2.
- PBKDF2 and HMAC themselves (section 5.2 of RFC 8018), and errors they may return; RFC 3339 formatting of the last login.
- Strings that are not valid UTF-8: a string is a sequence of characters, and body limits measure its UTF-8 length.
- `net/netip` parsing and prefix containment, `net.SplitHostPort`, and the scheme of the accepted connection: parameters of the trusted-proxy model.
- MigrationCatalog.CollectForDialect: Bun's `Discover` is a parameter, and which of several errors is reported is not said; that depends on the walk order.
- MigrationNames.ScaffoldReadsBack: the names only, not the files; refusing to overwrite and the clean-up after a failed write are file-system behaviour.
- Exemption.ExemptDistributes: a handler is a function of its request, so its effects are part of its outcome; the nil request is not modelled.
- BodyLimits.Validate: says that a configuration is refused, not with which message; that depends on the map order.
- BodyLimits.Admit: the capped reader is recorded as the cap; reading from it is not modelled.
- Env.Schema.Load: duration and URL parsing and the reading of a `.env` file are parameters.
- SessionStore.SessionRows.SaveSession: the database's time precision and its errors.
- AuthSafety.ResetTokenSingleUse: assumes, as all runs do, that salts never repeat.
- Applying and rolling back migrations, the server and database wrappers, the CLI, project scaffolding, request ids, security headers and mail.
