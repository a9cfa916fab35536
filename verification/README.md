# ReadyPlz core in Dafny

ReadyPlz is a Spring Boot web application where gamers keep a small collection of Steam games, find other members who own the same games, and message them. This project models its core as pure functions over immutable state and proves properties of that model:

- **Tokens and sessions.**
  - The Redis token store (`TokenStore`) and the JWT codec (`Jwt`).
  - The login, refresh-with-rotation, logout and validate endpoints (`Session`).
  - The sign-up endpoint with its automatic login (`Registration`).
  - The two enforcement points: the HTTP request filter (`RequestFilter`) and the STOMP CONNECT interceptor (`Handshake`).
  - The user-details lookup (`Identity`) and the route rules with the unauthorized entry point (`Routes`).
- **Accounts.**
  - The member service: duplicate checks, the reset-token lifecycle, nickname and password changes, account deletion (`Accounts`).
  - The profile and password-reset pages that map its errors to redirects (`Profile`, `PasswordReset`).
  - The password-confirmation validator (`PasswordMatches`).
- **Catalogue import.** The batched, de-duplicating import of the Steam catalogue (`CatalogueImport`) and the conversion of one catalogue entry into a game row (`SteamGame`).
- **Collections and messages.**
  - Adding and removing games under the five-game cap, and the collection page's flags (`GameCollection`).
  - The grouping of co-owners by game (`CoOwners`).
  - The message cap with eviction, and the decoding of conversation rows (`Messages`).
  - The message queries as functions over the message table (`MessageRepository`).
- **Entities.** The association helpers of `Member`, `Game`, `MemberGame` and `Message` over an explicit heap of references, with their frame conditions (`Entities`).

## How state and external code are represented

- Redis is a map from key to value and TTL. A store that does not answer is an `online` flag. Every store transition returns the new map.
- The database tables are sequences of records. A derived finder returns the first matching row.
- Entities are objects in a heap: one map from reference to object per class. Frame conditions therefore become ordinary postconditions: "every other entry of the map agrees".
- JWT signing is a `Signer` with a `sign` function and a partial `verify` function. Lemmas about generated tokens assume that the signer is lawful: `verify` inverts `sign`, which makes `sign` injective.
- These are parameters:
  - the clock (`now`, in milliseconds);
  - BCrypt, an `encode`/`matches` pair;
  - random UUIDs and database identifiers;
  - the `DateTimeFormatter` parsers;
  - `@Email` validation;
  - the JDBC driver's text codecs.
- Java's `Long.intValue()` is written out as 32-bit wrap-around (`Numbers.IntValue`).

## Model

| member | source | states |
|---|---|---|
| TokenStore.KeysDistinct | src/main/java/Readyplz/io/ReadyPlz/service/TokenService.java:16-18 | The three key namespaces never collide, and each key determines its user or token, so a write under one kind of key cannot reach another kind, user or token. |
| TokenStore.SaveAccessToken | src/main/java/Readyplz/io/ReadyPlz/service/TokenService.java:21-25 | After the save the user's access token reads back as the saved one with the given TTL; other users' access tokens, all refresh tokens and the blacklist are unchanged. |
| TokenStore.SaveRefreshToken | src/main/java/Readyplz/io/ReadyPlz/service/TokenService.java:28-32 | The same for the refresh slot: it reads back, and access tokens, other users and the blacklist are unchanged. |
| TokenStore.SaveOverwrites | src/main/java/Readyplz/io/ReadyPlz/service/TokenService.java:21-32 | A second save for the same user replaces the first token of that kind. |
| TokenStore.AddToBlacklist | src/main/java/Readyplz/io/ReadyPlz/service/TokenService.java:47-51 | The token becomes blacklisted with the given TTL; no other token's blacklist status and no stored session token changes. |
| TokenStore.BlacklistExactlyAdded | src/main/java/Readyplz/io/ReadyPlz/service/TokenService.java:47-57 | A token that was not blacklisted is blacklisted after the add exactly when it is the token added. |
| TokenStore.DeleteUserTokens | src/main/java/Readyplz/io/ReadyPlz/service/TokenService.java:60-66 | Both of the user's tokens are gone afterwards; other users' tokens and the blacklist are unchanged. |
| TokenStore.DeleteUserTokensIdempotent | src/main/java/Readyplz/io/ReadyPlz/service/TokenService.java:60-66 | Deleting a user's tokens twice leaves the same store as deleting them once. |
| TokenStore.DeleteAccessToken | src/main/java/Readyplz/io/ReadyPlz/service/TokenService.java:69-73 | Removes only that user's access token; refresh tokens, other users and the blacklist stay. |
| TokenStore.DeleteRefreshToken | src/main/java/Readyplz/io/ReadyPlz/service/TokenService.java:76-80 | Removes only that user's refresh token; access tokens, other users and the blacklist stay. |
| Jwt.Seconds | src/main/java/Readyplz/io/ReadyPlz/util/JwtTokenUtil.java:84-92 | Milliseconds become a NumericDate by truncation toward zero: the input lies in the second starting at the result when it is non-negative, and in the second ending there when it is negative. |
| Jwt.ValidateToken | src/main/java/Readyplz/io/ReadyPlz/util/JwtTokenUtil.java:94-97 | Fails exactly when parsing fails; holds exactly when the token parses and its subject is the user's name. |
| Jwt.IsRefreshToken | src/main/java/Readyplz/io/ReadyPlz/util/JwtTokenUtil.java:99-106 | A token is reported as a refresh token only if it parses; every parse failure yields false rather than an error. |
| Jwt.ExpirationIsIssuePlusValidity | src/main/java/Readyplz/io/ReadyPlz/util/JwtTokenUtil.java:84-92 | With the clock read at one instant, each kind of token expires at issue time plus that kind's validity, truncated to whole seconds, and exactly so when the validity is a whole number of seconds. |
| Jwt.WholeSecondsShift | src/main/java/Readyplz/io/ReadyPlz/util/JwtTokenUtil.java:88-89 | Adding a whole number of seconds commutes with truncation to seconds. |
| Jwt.RefreshTokenIsRefresh | src/main/java/Readyplz/io/ReadyPlz/util/JwtTokenUtil.java:78-103 | A generated refresh token, while unexpired, is recognised as a refresh token. |
| Jwt.AccessTokenIsNotRefresh | src/main/java/Readyplz/io/ReadyPlz/util/JwtTokenUtil.java:72-103 | A generated access token carries the user's roles and is never recognised as a refresh token. |
| Jwt.ExtractUsernameOfGenerated | src/main/java/Readyplz/io/ReadyPlz/util/JwtTokenUtil.java:40-92 | Reading the user name back from either kind of generated token gives the user's name while it is live, and the expired error afterwards. |
| Jwt.ValidateTokenIgnoresType | src/main/java/Readyplz/io/ReadyPlz/util/JwtTokenUtil.java:94-97 | A live refresh token passes the validation meant for access tokens: the type claim is not looked at. |
| Jwt.ValidateTokenMeansSubject | src/main/java/Readyplz/io/ReadyPlz/util/JwtTokenUtil.java:94-97 | For a token that verifies and has not expired, validation is exactly the comparison of its subject with the user's name. |
| Jwt.SameSecondSameToken | src/main/java/Readyplz/io/ReadyPlz/util/JwtTokenUtil.java:84-92 | Two refresh tokens for the same user issued within the same second (with expirations in the same second) are the same string. |
| Jwt.DifferentSecondsDifferentTokens | src/main/java/Readyplz/io/ReadyPlz/util/JwtTokenUtil.java:84-92 | Tokens issued in different seconds differ, for both kinds. |
| Identity.RoleNames | src/main/java/Readyplz/io/ReadyPlz/service/CustomUserDetailsService.java:33-35 | One authority per role, in order, each the role's name. |
| Identity.LoadUserByUsername | src/main/java/Readyplz/io/ReadyPlz/service/CustomUserDetailsService.java:25-42 | Fails with the not-found error exactly when no member has the name; otherwise returns that member's name, unchanged password hash and its role names as Spring's principal holds them: sorted by name, each once. |
| Identity.InsertName | src/main/java/Readyplz/io/ReadyPlz/service/CustomUserDetailsService.java:37-41 | Adding a name to a sorted authority set keeps it strictly sorted, and the result holds exactly the old names and the new one. |
| Identity.SortAuthorities | src/main/java/Readyplz/io/ReadyPlz/service/CustomUserDetailsService.java:37-41 | The authorities are strictly sorted by `compareTo` and hold exactly the given names, duplicates collapsed. |
| Identity.SortedUnique | src/main/java/Readyplz/io/ReadyPlz/service/CustomUserDetailsService.java:37-41 | Two strictly sorted name lists with the same members are the same list: the sorted authority set is unique. |
| Identity.AuthoritiesIgnoreRoleOrder | src/main/java/Readyplz/io/ReadyPlz/service/CustomUserDetailsService.java:37-41 | The authorities depend only on which role names a member has, not on the iteration order of its role set or on repeats. |
| Identity.BeforeTransitive | src/main/java/Readyplz/io/ReadyPlz/service/CustomUserDetailsService.java:37-41 | The `compareTo` order that sorts authorities is transitive. |
| Identity.BeforeTotal | src/main/java/Readyplz/io/ReadyPlz/service/CustomUserDetailsService.java:37-41 | Of two different names, one sorts before the other. |
| Identity.BeforeAsymmetric | src/main/java/Readyplz/io/ReadyPlz/service/CustomUserDetailsService.java:37-41 | No two names each sort before the other. |
| Http.CookieValue | src/main/java/Readyplz/io/ReadyPlz/security/JwtAuthenticationFilter.java:50-57 | Absent exactly when no cookie has the name; otherwise the value of the first cookie with that name. |
| Http.BearerToken | src/main/java/Readyplz/io/ReadyPlz/security/JwtAuthenticationFilter.java:59-64 | Present exactly when the header starts with "Bearer ", and then the header is the prefix followed by the result. |
| Http.BearerTokenOfHeader | src/main/java/Readyplz/io/ReadyPlz/security/JwtAuthenticationFilter.java:59-64 | Stripping the prefix from "Bearer " + t gives back t. |
| Session.StoreSession | src/main/java/Readyplz/io/ReadyPlz/controller/AuthController.java:70-71 | The store holds the new pair with the access and refresh TTLs for that user; other users and the blacklist are untouched. |
| Session.SessionCookies | src/main/java/Readyplz/io/ReadyPlz/controller/AuthController.java:73-87 | Two HTTP-only cookies on path "/" carrying the tokens, with max-ages 3600 and 43200 seconds (the TTLs divided by 1000). |
| Session.ClearedCookies | src/main/java/Readyplz/io/ReadyPlz/controller/AuthController.java:305-319 | Both token cookies with empty values and max-age 0. |
| Session.Authenticate | src/main/java/Readyplz/io/ReadyPlz/controller/AuthController.java:53-61 | Succeeds exactly when both credentials are present, the user exists and the encoder matches the password against the stored hash; the principal is that member's. |
| Session.Login | src/main/java/Readyplz/io/ReadyPlz/controller/AuthController.java:50-110 | Bad credentials give 401 and an unreachable store 500, both with the store unchanged; success stores exactly the new pair for the name sent, returns the access token and sets both cookies. |
| Session.Refresh | src/main/java/Readyplz/io/ReadyPlz/controller/AuthController.java:161-245 | No usable cookie gives 401 and a non-refresh token the "invalid" 400; a token that differs from the stored one gets the reuse 400, and an unknown user or an unreachable store the generic 400; nothing is written unless every check passes; success happens exactly when the token is a live refresh token of a known user and equals the stored one, and then the store holds exactly the new pair. |
| Session.LoginThenRefresh | src/main/java/Readyplz/io/ReadyPlz/controller/AuthController.java:164-203 | After a successful login, the browser returning the two cookies presents exactly the refresh token that was stored, and a refresh is granted at any later instant while that token is unexpired. |
| Session.RefreshNeverReportsExpired | src/main/java/Readyplz/io/ReadyPlz/controller/AuthController.java:182-195 | At one request instant the "expired" answer is unreachable: a token accepted as a refresh token is unexpired and names the user loaded from it. |
| Session.ExpiredRefreshTokenIsInvalid | src/main/java/Readyplz/io/ReadyPlz/controller/AuthController.java:182-186 | An expired refresh token issued by the application is answered with the "invalid" 400. |
| Session.RotationRejectsOldToken | src/main/java/Readyplz/io/ReadyPlz/controller/AuthController.java:198-211 | After a rotation, the old refresh token is refused at any later time whenever the rotation produced a different string. |
| Session.SameSecondReplayAccepted | src/main/java/Readyplz/io/ReadyPlz/controller/AuthController.java:198-211 | If the rotation reproduced the same string, the old token is accepted again. |
| Session.SameSecondRotationRepeatsToken | src/main/java/Readyplz/io/ReadyPlz/controller/AuthController.java:198-211 | A refresh made in the same second the presented token was issued reproduces it, so the replay is accepted. |
| Session.LogoutUsername | src/main/java/Readyplz/io/ReadyPlz/controller/AuthController.java:274-293 | A name is found exactly when a non-blank access token or else the refresh cookie parses; it is that token's subject, and parse failures give none without error. When the access token parses, its subject wins over the refresh cookie's. |
| Session.Logout | src/main/java/Readyplz/io/ReadyPlz/controller/AuthController.java:247-335 | Fails with 400 exactly when a store call is needed and the store is down, changing nothing; otherwise the non-blank access token is blacklisted for 3,600,000 ms, the found user's tokens are deleted, nothing else changes, and both cookies are cleared. |
| Session.LogoutBlacklistsBearerToken | src/main/java/Readyplz/io/ReadyPlz/controller/AuthController.java:250-271 | With no body field, the token of a bearer header is the one logout acts on: it is blacklisted and no other token's blacklist status changes. |
| Session.LogoutEndsSession | src/main/java/Readyplz/io/ReadyPlz/controller/AuthController.java:296-311 | Logging out with a user's live access token blacklists it and leaves no stored token for that user. |
| RequestFilter.Filter | src/main/java/Readyplz/io/ReadyPlz/security/JwtAuthenticationFilter.java:34-122 | The chain is called twice exactly when a revoked token is presented while the blacklist is reachable and the rest of the chain throws (the handler dispatches the request again); otherwise once. No candidate leaves the context alone; a blacklisted token or unreachable blacklist clears it; an unparsable token leaves it alone; an existing authentication is never replaced; a new one is installed only for a live, unrevoked token of a known user, and always in that case. |
| RequestFilter.RevokedTokenThrowingChainRunsTwice | src/main/java/Readyplz/io/ReadyPlz/security/JwtAuthenticationFilter.java:73-85 | A revoked token in the access cookie sends the request down the chain twice when the chain throws, once when it does not. |
| RequestFilter.ContextIgnoresChain | src/main/java/Readyplz/io/ReadyPlz/security/JwtAuthenticationFilter.java:73-85 | Whether the chain throws changes only how often it runs, never the security context the filter leaves. |
| RequestFilter.ValidateSessionAfterFilter | src/main/java/Readyplz/io/ReadyPlz/controller/AuthController.java:337-347 | For a request the filter handled on an empty context, the validate endpoint answers 200 with the token's subject exactly when the presented token is live, signed, unrevoked and names a known user; otherwise 401. |
| RequestFilter.FilterReadsOnlyBlacklist | src/main/java/Readyplz/io/ReadyPlz/security/JwtAuthenticationFilter.java:73-116 | Two stores that agree on the blacklist give the same outcome: stored session tokens are never consulted. |
| RequestFilter.RefreshTokenAcceptedAsAccess | src/main/java/Readyplz/io/ReadyPlz/security/JwtAuthenticationFilter.java:98-116 | A live refresh token presented as the access cookie authenticates its user. |
| RequestFilter.LogoutRevokesAccessToken | src/main/java/Readyplz/io/ReadyPlz/security/JwtAuthenticationFilter.java:73-85 | After a successful logout naming a non-blank access token, a request carrying that token ends with an empty context. |
| Handshake.PreSend | src/main/java/Readyplz/io/ReadyPlz/security/WebSocketAuthChannelInterceptor.java:30-64 | Non-CONNECT frames pass unchanged; a CONNECT without a bearer header is refused with the missing-header error; a CONNECT succeeds exactly when the token is unrevoked, live and names a known user, and then carries that user's authentication; every other failure is the one authentication error. |
| Handshake.BlacklistedTokenRejected | src/main/java/Readyplz/io/ReadyPlz/security/WebSocketAuthChannelInterceptor.java:39-55 | A blacklisted token cannot open a socket. |
| Handshake.AgreesWithRequestFilter | src/main/java/Readyplz/io/ReadyPlz/security/WebSocketAuthChannelInterceptor.java:35-51 | A CONNECT succeeds exactly when the HTTP filter would authenticate the same bearer token, and then with the same principal. |
| Routes.FirstMatch | src/main/java/Readyplz/io/ReadyPlz/config/SecurityConfig.java:43-56 | The first rule that matches the path; none exactly when no rule matches. |
| Routes.RequiredAccess | src/main/java/Readyplz/io/ReadyPlz/config/SecurityConfig.java:43-56 | Public paths are open; otherwise admin paths need ROLE_ADMIN and everything else needs authentication. |
| Routes.AdminPathsAreNotPublic | src/main/java/Readyplz/io/ReadyPlz/config/SecurityConfig.java:44-52 | No public pattern reaches under /admin, so the admin rule is never shadowed. |
| Routes.NonPublicNeedsAuthentication | src/main/java/Readyplz/io/ReadyPlz/config/SecurityConfig.java:44-56 | A path needs some authentication exactly when it is not on the public list. |
| Routes.Authorize | src/main/java/Readyplz/io/ReadyPlz/config/SecurityConfig.java:43-80 | Public paths proceed; an unauthenticated request elsewhere goes to the entry point; a refusal (403) happens only for an authenticated non-admin on an admin path. |
| Routes.UnauthenticatedApiGets401 | src/main/java/Readyplz/io/ReadyPlz/config/SecurityConfig.java:72-76 | An unauthenticated API call is answered with the JSON 401, never a redirect. |
| Accounts.NextId | src/main/java/Readyplz/io/ReadyPlz/service/MemberService.java:33 | The identifier given to a new member is above every identifier in use. |
| Accounts.Register | src/main/java/Readyplz/io/ReadyPlz/service/MemberService.java:29-56 | Duplicate e-mail, then user name, then (only for a non-blank nickname) nickname fail in that order and save nothing; otherwise exactly the new member is appended with a fresh identifier. |
| Accounts.RegisterKeepsAccountsUnique | src/main/java/Readyplz/io/ReadyPlz/service/MemberService.java:37-56 | Registration preserves uniqueness of identifiers, e-mails, user names and non-blank nicknames. |
| Accounts.CreatePasswordResetToken | src/main/java/Readyplz/io/ReadyPlz/service/MemberService.java:75-91 | An unknown e-mail changes nothing and sends nothing; a known one sets token and one-hour expiry on that member alone and mails the token there. |
| Accounts.ResetPassword | src/main/java/Readyplz/io/ReadyPlz/service/MemberService.java:105-117 | An unknown token and an expiry that is missing or strictly before now are the two errors; success stores the encoded password and clears token and expiry on that member alone. |
| Accounts.ResetBoundaryDisagreement | src/main/java/Readyplz/io/ReadyPlz/service/MemberService.java:98-117 | At expiry equal to now the token is reported invalid, yet the reset succeeds. |
| Accounts.ResetAgreesWithValidity | src/main/java/Readyplz/io/ReadyPlz/service/MemberService.java:98-117 | A reset succeeds exactly when the token is valid or expires at this very instant. |
| Accounts.FreshResetTokenLifecycle | src/main/java/Readyplz/io/ReadyPlz/service/MemberService.java:75-117 | A freshly issued token is valid strictly before an hour has passed, resets until and including that instant, and cannot be found after a reset. |
| Accounts.UpdateNickname | src/main/java/Readyplz/io/ReadyPlz/service/MemberService.java:125-134 | An unknown user and a non-blank nickname any member holds are the errors; otherwise only that member's nickname changes. |
| Accounts.OwnNicknameIsTaken | src/main/java/Readyplz/io/ReadyPlz/service/MemberService.java:129-131 | Asking for one's own current nickname is refused as a duplicate. |
| Accounts.UpdateNicknameKeepsAccountsUnique | src/main/java/Readyplz/io/ReadyPlz/service/MemberService.java:125-134 | A nickname change preserves the uniqueness of accounts. |
| Accounts.ChangePassword | src/main/java/Readyplz/io/ReadyPlz/service/MemberService.java:139-149 | An unknown user and a password mismatch are the errors; otherwise only that member's hash changes, to the encoded new password. |
| Accounts.ChangePasswordIgnoresConfirmation | src/main/java/Readyplz/io/ReadyPlz/service/MemberService.java:139-149 | The confirmation argument never influences the outcome. |
| Accounts.DeleteOwnershipsOf | src/main/java/Readyplz/io/ReadyPlz/service/MemberService.java:167 | Exactly the member's ownership rows are removed. |
| Accounts.DeleteOwnAccount | src/main/java/Readyplz/io/ReadyPlz/service/MemberService.java:155-171 | An unknown user and a wrong password are the errors and delete nothing; success removes the received messages, the sent messages, the ownerships and the member row, and nothing else. |
| Accounts.DeleteOwnAccountRemovesOnlyTheMember | src/main/java/Readyplz/io/ReadyPlz/service/MemberService.java:155-171 | With unique identifiers the deleted id is gone and every other member remains. |
| Registration.NewMember | src/main/java/Readyplz/io/ReadyPlz/controller/AuthController.java:123-136 | The new row has the form's names and e-mail, the encoded password, the single ROLE_USER role and no reset token. |
| Registration.SignUpApi | src/main/java/Readyplz/io/ReadyPlz/controller/AuthController.java:112-157 | A missing or differing confirmation is refused first and a duplicate is refused with its reason, both changing nothing; a sign-up that passes carries matching passwords and is then logged in or reported as signed up only. The automatic login answers with the login's access token and its two cookies, neither marked secure. |
| Registration.SignUpLogsIn | src/main/java/Readyplz/io/ReadyPlz/controller/AuthController.java:355-392 | With a consistent encoder and a reachable store, a sign-up that passes the duplicate checks is logged in at once. |
| PasswordMatches.IsValidFacts | src/main/java/Readyplz/io/ReadyPlz/validation/PasswordMatchesValidator.java:21-31 | Two fields are valid exactly when equal (both null included); one null field is invalid; the check is symmetric. |
| Profile.ErrorMessage | src/main/java/Readyplz/io/ReadyPlz/controller/ProfileController.java:107-111 | Every service error carries a non-blank message. |
| Profile.ServiceErrorsShownVerbatim | src/main/java/Readyplz/io/ReadyPlz/controller/ProfileController.java:161-166 | Each service error is flashed with its own message, so the blank-message fallback never applies to one, and different errors give different flash messages. |
| Text.Utf16Length | src/main/java/Readyplz/io/ReadyPlz/dto/request/DeleteAccountRequest.java:19-21 | `@Size` counts UTF-16 code units: between one and two per character, and as many as characters exactly when none lies outside the Basic Multilingual Plane. |
| Text.Utf16LengthAppend | src/main/java/Readyplz/io/ReadyPlz/dto/request/DeleteAccountRequest.java:19-21 | The code-unit length of a concatenation is the sum of the parts' lengths. |
| Profile.NotBlankHasVisibleChar | src/main/java/Readyplz/io/ReadyPlz/dto/request/DeleteAccountRequest.java:15-24 | A field passes `@NotBlank` exactly when it is present and holds a character above U+0020. |
| Profile.DeleteAccountFieldErrors | src/main/java/Readyplz/io/ReadyPlz/controller/ProfileController.java:65-68 | The e-mail field errs exactly when it is blank or not an address; there are no field errors exactly when the e-mail is a non-blank address, the password is non-blank and at least six UTF-16 code units long, and the confirmation is non-blank. |
| Profile.DeleteAccount | src/main/java/Readyplz/io/ReadyPlz/controller/ProfileController.java:55-116 | Form errors, a missing member, an e-mail mismatch (trimmed, case-insensitive) and a service error redirect back and change nothing; a successful deletion clears the tokens and cookies, or reports delete_failed when the store is down. |
| Profile.TokensOutliveNoAccount | src/main/java/Readyplz/io/ReadyPlz/controller/ProfileController.java:82-106 | The token store is touched only when the account was actually deleted. |
| Profile.WrongPasswordDeletesNothing | src/main/java/Readyplz/io/ReadyPlz/controller/ProfileController.java:82-111 | A wrong password is reported as password_input_error and nothing is deleted. |
| Profile.UpdateNicknameConfirmed | src/main/java/Readyplz/io/ReadyPlz/controller/ProfileController.java:135-149 | An invalid nickname is refused by validation; any service error is shown as duplicate_nickname with nothing changed; success shows nickname_updated with the update applied. |
| Profile.ChangePasswordPage | src/main/java/Readyplz/io/ReadyPlz/controller/ProfileController.java:151-167 | An invalid form (a blank field, a new password under six UTF-16 code units, or a confirmation that differs) is refused by validation; a service error is shown by its reason with nothing changed; success shows password_updated. |
| Profile.AcceptedFormConfirmsPassword | src/main/java/Readyplz/io/ReadyPlz/controller/ProfileController.java:151-160 | An accepted form has the new password equal to its confirmation. |
| PasswordReset.HandleResetRequest | src/main/java/Readyplz/io/ReadyPlz/controller/MemberController.java:46-51 | The answer is always the same redirect and message; the tables and the mail are those of the token creation. |
| PasswordReset.ResetRequestRevealsNothing | src/main/java/Readyplz/io/ReadyPlz/controller/MemberController.java:46-51 | A known and an unknown address get the same page; only the known one gets a mail, and the unknown one changes nothing. |
| PasswordReset.ResetPasswordForm | src/main/java/Readyplz/io/ReadyPlz/controller/MemberController.java:53-61 | The form shows the token exactly when it is valid; otherwise it shows the error. |
| PasswordReset.HandleResetPassword | src/main/java/Readyplz/io/ReadyPlz/controller/MemberController.java:63-81 | A differing confirmation redirects back before any reset; otherwise a reset error redirects back with its message and the token, and success goes to the login form. |
| PasswordReset.FormRefusesWhatSubmitAccepts | src/main/java/Readyplz/io/ReadyPlz/controller/MemberController.java:53-81 | At the expiry instant the form refuses the token that a submission would still accept. |
| PasswordReset.SubmissionChangesOnlyOnSuccess | src/main/java/Readyplz/io/ReadyPlz/controller/MemberController.java:63-81 | Only a successful submission changes the member table, and then the token is used up. |
| Messages.EnsureMessageLimit | src/main/java/Readyplz/io/ReadyPlz/service/MessageService.java:96-103 | Below the cap nothing changes; at or above it exactly ten messages go, and none kept is older than any removed. |
| Messages.NewMessage | src/main/java/Readyplz/io/ReadyPlz/domain/Message.java:53-58 | The new message has the given sender, receiver and content and is unread. |
| Messages.SendMessage | src/main/java/Readyplz/io/ReadyPlz/service/MessageService.java:30-42 | An unknown sender, then an unknown receiver, fail without changes; success appends the new message after eviction, so the total becomes n+1 below the cap and n-9 at or above it. |
| Messages.SendKeepsTableBounded | src/main/java/Readyplz/io/ReadyPlz/service/MessageService.java:37-41 | Sending from a table within the cap keeps it within the cap. |
| Messages.SentMessageSurvives | src/main/java/Readyplz/io/ReadyPlz/service/MessageService.java:37-41 | The sent message is in the new table, and every other row was there before. |
| Messages.DecodeFromMe | src/main/java/Readyplz/io/ReadyPlz/service/MessageService.java:77-84 | A boolean as is; a number is true exactly when its low 32 bits are non-zero; null is false; text is true exactly when it is "true" ignoring case. |
| Messages.DecodeRow | src/main/java/Readyplz/io/ReadyPlz/service/MessageService.java:65-87 | A row decodes exactly when its identifier and count are null or numbers and its time decodes; null identifier, nickname and content stay null and a null count becomes 0. |
| Messages.DecodeEncodedRow | src/main/java/Readyplz/io/ReadyPlz/service/MessageService.java:65-87 | Decoding a row as the query produces it gives the row back, whichever way the driver sends the flag. |
| Messages.WideFlagReadsAsFalse | src/main/java/Readyplz/io/ReadyPlz/service/MessageService.java:80-81 | A numeric flag of 2^32 reads as "not from me" although it is non-zero. |
| Messages.DecodeRows | src/main/java/Readyplz/io/ReadyPlz/service/MessageService.java:60-63 | A page decodes exactly when every row does, and then row by row. |
| MessageRepository.FindConversation | src/main/java/Readyplz/io/ReadyPlz/repository/MessageRepository.java:32-38 | Exactly the messages between the two members, in either direction. |
| MessageRepository.FindConversationSymmetric | src/main/java/Readyplz/io/ReadyPlz/repository/MessageRepository.java:35-36 | The conversation is the same whichever participant asks. |
| MessageRepository.FindBySenderId | src/main/java/Readyplz/io/ReadyPlz/repository/MessageRepository.java:16-21 | Exactly the messages the member sent. |
| MessageRepository.FindByReceiverId | src/main/java/Readyplz/io/ReadyPlz/repository/MessageRepository.java:24-29 | Exactly the messages the member received whose sender is not null (the inner join drops the others). |
| MessageRepository.DeleteAllBySenderId | src/main/java/Readyplz/io/ReadyPlz/repository/MessageRepository.java:109-112 | Exactly the member's sent messages are removed; the rest stay. |
| MessageRepository.DeleteAllByReceiverId | src/main/java/Readyplz/io/ReadyPlz/repository/MessageRepository.java:114-117 | Exactly the member's received messages are removed; the rest stay. |
| MessageRepository.OldestIndex | src/main/java/Readyplz/io/ReadyPlz/repository/MessageRepository.java:105 | Points at a message no later than any other. |
| MessageRepository.DeleteOldestMessages | src/main/java/Readyplz/io/ReadyPlz/repository/MessageRepository.java:103-106 | Removes min(k, n) messages, and none kept is older than any removed. |
| MessageRepository.Counterpart | src/main/java/Readyplz/io/ReadyPlz/repository/MessageRepository.java:52-60 | A message has a counterpart exactly when the user sent it or received it from a non-null sender, and it belongs to that pair's conversation. |
| MessageRepository.CounterpartsWhere | src/main/java/Readyplz/io/ReadyPlz/repository/MessageRepository.java:52-74 | Each counterpart passing the filter appears exactly once. |
| MessageRepository.Latest | src/main/java/Readyplz/io/ReadyPlz/repository/MessageRepository.java:47 | The result is in the sequence and nothing in it is later by (created_at, id). |
| MessageRepository.LastMessage | src/main/java/Readyplz/io/ReadyPlz/repository/MessageRepository.java:62-69 | The pair's message that no other message of the pair comes after. |
| MessageRepository.InsertLatestFirst | src/main/java/Readyplz/io/ReadyPlz/repository/MessageRepository.java:75 | Insertion keeps the latest-first order and the same elements. |
| MessageRepository.SortLatestFirst | src/main/java/Readyplz/io/ReadyPlz/repository/MessageRepository.java:75 | The result is ordered latest first and is a permutation of the input. |
| MessageRepository.SortedConversations | src/main/java/Readyplz/io/ReadyPlz/repository/MessageRepository.java:41-75 | One conversation per listed counterpart, each with that pair's last message, ordered latest first. |
| MessageRepository.FindConversationsForUser | src/main/java/Readyplz/io/ReadyPlz/repository/MessageRepository.java:41-95 | One row per non-admin counterpart with a member row, each carrying the pair's latest message, whether the user sent it, the unread count and the nickname, ordered latest first by the last message's time and, among equal times, by its id. |
| MessageRepository.CountMatchesRows | src/main/java/Readyplz/io/ReadyPlz/repository/MessageRepository.java:76-93 | With every counterpart present in the member table, the count query equals the number of rows. |
| SteamGame.ToEntity | src/main/java/Readyplz/io/ReadyPlz/dto/SteamGameDTO.java:52-78 | The appid is absent exactly when the source id is, and is otherwise its 32-bit narrowing; name and image are copied; the date is parsed. |
| SteamGame.NarrowedIdsCollide | src/main/java/Readyplz/io/ReadyPlz/dto/SteamGameDTO.java:54-57 | Two Steam ids 2^32 apart become the same appid. |
| SteamGame.PlaceholdersIgnoreCase | src/main/java/Readyplz/io/ReadyPlz/dto/SteamGameDTO.java:61 | "tba" and "COMING SOON" are recognised as placeholders. |
| Numbers.IntValue | src/main/java/Readyplz/io/ReadyPlz/dto/SteamGameDTO.java:56 | Java's intValue(): a 32-bit value congruent to the input modulo 2^32. |
| CatalogueImport.ValidDtos | src/main/java/Readyplz/io/ReadyPlz/service/JsonToDbService.java:97-101 | Exactly the batch entries with an id and a non-empty name, as many as there are. |
| CatalogueImport.KeepsIsFirstOccurrence | src/main/java/Readyplz/io/ReadyPlz/service/JsonToDbService.java:115-139 | A valid entry is kept exactly when neither its narrowed id nor its name is in the table or in an earlier kept entry. |
| CatalogueImport.ProcessBatchRefFacts | src/main/java/Readyplz/io/ReadyPlz/service/JsonToDbService.java:91-142 | Saved, skipped and invalid add up to the batch size; an all-invalid batch gives (0, 0, n) and writes nothing. |
| CatalogueImport.SavedRowsAreFresh | src/main/java/Readyplz/io/ReadyPlz/service/JsonToDbService.java:115-135 | No saved row shares its appid or name with a table row, and no two saved rows share an appid or a name. |
| CatalogueImport.ProcessBatch | src/main/java/Readyplz/io/ReadyPlz/service/JsonToDbService.java:91-142 | The loop computes exactly the reference batch result. |
| CatalogueImport.BatchAt | src/main/java/Readyplz/io/ReadyPlz/service/JsonToDbService.java:65-67 | Each batch is non-empty and at most 1000 long. |
| CatalogueImport.BatchesPartition | src/main/java/Readyplz/io/ReadyPlz/service/JsonToDbService.java:65-67 | Every index falls in exactly one batch: the one numbered by its quotient by 1000. |
| CatalogueImport.ImportCountsSucceededEntries | src/main/java/Readyplz/io/ReadyPlz/service/JsonToDbService.java:65-84 | The totals grow by exactly the sizes of the batches that did not fail. |
| CatalogueImport.SucceededSizeWithoutFailures | src/main/java/Readyplz/io/ReadyPlz/service/JsonToDbService.java:65-84 | Without failures every entry is counted once. |
| CatalogueImport.ImportAll | src/main/java/Readyplz/io/ReadyPlz/service/JsonToDbService.java:59-84 | The loop computes the reference import, and its totals add up to the entries of the batches that did not fail. |
| CoOwners.Summaries | src/main/java/Readyplz/io/ReadyPlz/service/MemberGameService.java:46-48 | One summary per row, in order, with the row's member fields. |
| CoOwners.PutIfAbsentAll | src/main/java/Readyplz/io/ReadyPlz/service/MemberGameService.java:50 | Every requested game becomes a key; existing groups are never replaced; new keys map to the empty list. |
| CoOwners.GroupIsFilter | src/main/java/Readyplz/io/ReadyPlz/service/MemberGameService.java:42-49 | A game has a group exactly when another member's row names it, and the group is those rows in query order. |
| CoOwners.SameGameUsersSpec | src/main/java/Readyplz/io/ReadyPlz/service/MemberGameService.java:40-52 | The keys are the requested games and those of other members' rows; each maps to that game's other-member rows in query order. |
| CoOwners.CurrentUserExcluded | src/main/java/Readyplz/io/ReadyPlz/service/MemberGameService.java:43 | The current user never appears in any list. |
| CoOwners.KeysAreRequestedGames | src/main/java/Readyplz/io/ReadyPlz/service/MemberGameService.java:40-52 | When the rows come from the requested games, the keys are exactly those games. |
| GameCollection.LookupFindsNamedMember | src/main/java/Readyplz/io/ReadyPlz/controller/GameController.java:118-121 | With unique user names, the lookup resolves the authenticated name to the member who holds it, and an add writes at most that member's row for the requested game. |
| GameCollection.AddGame | src/main/java/Readyplz/io/ReadyPlz/controller/GameController.java:112-145 | A lookup failure gives 500; an owned game gives the 200 "already owned"; five or more games give 400; only otherwise is exactly one pair appended, and the table changes exactly in that case. |
| GameCollection.AddKeepsCap | src/main/java/Readyplz/io/ReadyPlz/controller/GameController.java:128-141 | Adds never take a member from at most five games to more. |
| GameCollection.OwnedBeforeCap | src/main/java/Readyplz/io/ReadyPlz/controller/GameController.java:124-131 | Re-adding an owned game gets the 200 even at the cap. |
| GameCollection.AddKeepsPairsUnique | src/main/java/Readyplz/io/ReadyPlz/domain/MemberGame.java:12-20 | No (member, game) pair is stored twice. |
| GameCollection.RemoveGame | src/main/java/Readyplz/io/ReadyPlz/controller/GameController.java:147-164 | A lookup failure gives 500 and changes nothing; otherwise 200, the pair is gone and every other row stays. |
| GameCollection.RemoveAbsentIsNoOp | src/main/java/Readyplz/io/ReadyPlz/controller/GameController.java:155-163 | Removing a game the member lacks succeeds and changes nothing. |
| GameCollection.RemoveIdempotent | src/main/java/Readyplz/io/ReadyPlz/controller/GameController.java:155-163 | Removing twice is removing once. |
| GameCollection.RemoveUndoesAdd | src/main/java/Readyplz/io/ReadyPlz/controller/GameController.java:134-163 | A successful add followed by a remove restores the table. |
| GameCollection.Flags | src/main/java/Readyplz/io/ReadyPlz/controller/GameController.java:85-107 | Each listed game is marked exactly when it is among the user's games; results are reported for any non-blank search, else exactly when the page is non-empty. |
| Entities.RemoveFirst | src/main/java/Readyplz/io/ReadyPlz/domain/Member.java:119-120 | An absent element leaves the list; a present one is removed once. |
| Entities.RemoveFirstDistinct | src/main/java/Readyplz/io/ReadyPlz/domain/Member.java:118-126 | In a duplicate-free list removal keeps it duplicate-free and removes exactly that element. |
| Entities.RemoveFirstUndoesAppend | src/main/java/Readyplz/io/ReadyPlz/domain/Member.java:104-126 | Removing what was just appended gives back the list. |
| Entities.MemberAddLink | src/main/java/Readyplz/io/ReadyPlz/domain/Member.java:104-112 | A null or present link changes nothing; otherwise only the member's list (appended once) and the link's member back-reference change. |
| Entities.MemberRemoveLink | src/main/java/Readyplz/io/ReadyPlz/domain/Member.java:118-126 | An absent link changes nothing; otherwise only the member's list and, if it points to this member, the back-reference change. |
| Entities.MemberLinksStayDistinct | src/main/java/Readyplz/io/ReadyPlz/domain/Member.java:104-121 | The member's link list stays duplicate-free under add and remove. |
| Entities.MemberRemoveUndoesAdd | src/main/java/Readyplz/io/ReadyPlz/domain/Member.java:104-126 | Adding then removing a link restores every member and leaves the link without a member. |
| Entities.GameAddLink | src/main/java/Readyplz/io/ReadyPlz/domain/Game.java:80-88 | As for members, with the back-reference on the game side. |
| Entities.GameRemoveLink | src/main/java/Readyplz/io/ReadyPlz/domain/Game.java:94-102 | As for members, with the back-reference on the game side. |
| Entities.GameLinksStayDistinct | src/main/java/Readyplz/io/ReadyPlz/domain/Game.java:80-102 | The game's link list stays duplicate-free under add and remove. |
| Entities.GameRemoveKeepsForeignBackReference | src/main/java/Readyplz/io/ReadyPlz/domain/Game.java:94-102 | A link whose game is another object keeps its back-reference on removal. |
| Entities.ChangeNickname | src/main/java/Readyplz/io/ReadyPlz/domain/Member.java:144-146 | Only that member's nickname changes. |
| Entities.ChangePassword | src/main/java/Readyplz/io/ReadyPlz/domain/Member.java:148-150 | Only that member's password changes. |
| Entities.SetResetToken | src/main/java/Readyplz/io/ReadyPlz/domain/Member.java:152-154 | Only that member's reset token changes. |
| Entities.SetResetTokenExpiry | src/main/java/Readyplz/io/ReadyPlz/domain/Member.java:155-157 | Only that member's reset expiry changes. |
| Entities.NewGame | src/main/java/Readyplz/io/ReadyPlz/domain/Game.java:37-71 | A new game has no id, no links, the given fields, and userHasGame false. |
| Entities.UpdateGameInfo | src/main/java/Readyplz/io/ReadyPlz/domain/Game.java:123-127 | Name, release date and image are set; appid, id, links and the flag stay, and nothing else changes. |
| Entities.GameEqualsFacts | src/main/java/Readyplz/io/ReadyPlz/domain/Game.java:105-111 | Distinct games with ids are equal exactly when the ids are; nothing equals null; equality is symmetric. |
| Entities.MemberEqualsFacts | src/main/java/Readyplz/io/ReadyPlz/domain/Member.java:129-136 | The same for members, and a member equals itself. |
| Entities.NewMemberGame | src/main/java/Readyplz/io/ReadyPlz/domain/MemberGame.java:61-66 | The builder refuses a null member or game; otherwise the new link holds exactly the two, and nothing else changes. |
| Entities.SetMember | src/main/java/Readyplz/io/ReadyPlz/domain/MemberGame.java:70-75 | Only the link's member changes. |
| Entities.SetGame | src/main/java/Readyplz/io/ReadyPlz/domain/MemberGame.java:77-81 | Only the link's game changes. |
| Entities.CreateMessage | src/main/java/Readyplz/io/ReadyPlz/domain/Message.java:44-69 | The new message has the given fields and is unread; it is appended to the sender's sent list and the receiver's received list when they are present; nothing else changes. |
| Entities.CreateListsOnce | src/main/java/Readyplz/io/ReadyPlz/domain/Message.java:58-68 | The new message appears exactly once in each list it is added to. |
| Entities.MarkAsRead | src/main/java/Readyplz/io/ReadyPlz/domain/Message.java:48-50 | Only that message's read flag changes, to true. |
| Entities.MarkAsReadIdempotent | src/main/java/Readyplz/io/ReadyPlz/domain/Message.java:48-50 | Marking twice is marking once. |

## Left out

- HMAC-SHA256 signing, JWS serialisation and base64: the signer is a parameter, and only its inverse law is assumed, in lemma preconditions.
- BCrypt hashing: the encoder is a parameter.
- Redis TTL expiry: a TTL is recorded with each entry but never fires. No operation depends on it, because token expiry is decided by the JWT's own expiration.
- Clocks, UUID generation and identity columns: they are parameters.
- Jwt.ExpirationIsIssuePlusValidity: every clock read within a request is the single `now`. `createToken` reads the clock twice (util/JwtTokenUtil.java:88-89), so when a second boundary falls between the reads the real expiration is one second later than the lemma states.
- Session.RefreshNeverReportsExpired: every clock read within a request is the single `now`. The refresh endpoint parses the token several times and `isTokenExpired` reads the clock again (util/JwtTokenUtil.java:69), so a token that expires between those reads does reach the "expired" 400.
- Spring plumbing, which is represented as values:
  - the filter chain is a call counter;
  - the thread-local security context is one value;
  - responses, redirects, flash attributes and cookies are datatypes without their string format.
- `AuthenticationManager`: modelled as `Session.Authenticate`, a DAO provider over `Identity.LoadUserByUsername` and the encoder.
- Routes.Matches: Ant path patterns are simplified to exact paths and `/**` prefix tests, which is all the rule table uses.
- JPA paging and sorting: queries return all rows. For the co-owner query, which has no ORDER BY, the row order is a parameter.
- Jackson parsing of the catalogue file, and `SteamGameDTO.fromJsonNode`: entries arrive already parsed.
- Bean Validation annotations of the profile forms are evaluated as predicates, and `@Email` is a parameter. The sign-up form's are not (next line).
- Registration.SignUpApi: the `MemberForm` constraints (user name 4 to 16 characters, password 8 to 20, e-mail and country not blank, nickname at most 12 characters without whitespace) are not evaluated. The source answers 400 for such a form before `register` runs; the model goes on to the confirmation and duplicate checks.
- Registration.SignUpApi: the column lengths of `members` (user name 16, e-mail 32, nickname 16, domain/Member.java:28-40) are not modelled. An over-long value makes the insert fail, which the source answers with its generic 400 (controller/AuthController.java:150-155); the model stores it.
- Identity.SortAuthorities: `String.compareTo` compares UTF-16 code units, the model compares characters. The order differs only when a name holds a character outside the Basic Multilingual Plane.
- Concurrency:
  - concurrent refreshes and logouts;
  - concurrent adds past the five-game cap;
  - the count-then-delete race of the message cap;
  - the asynchronous mail executor.
- Hibernate proxies in `equals`: `getClass()` is taken to be the entity class itself.
- `String.equalsIgnoreCase` and `trim` are modelled for ASCII letters and the characters up to U+0020 only.
- Browser scripts, SMTP, `AdminController`, `LoginController`, `HomeController`, the registration form's country list and the configuration classes: outside the core.
- CatalogueImport.ImportAll: a batch that throws is chosen by a `fails` predicate over batch numbers, and it is taken to have written nothing. A repository failure halfway through a batch, after some rows were saved, is not modelled.
- MessageRepository.DeleteOldestMessages: among messages with equal `created_at`, the database may remove any of them. The model removes them in table order, and its contract states only the order-independent facts.
- Entities.NewMemberGame: the builder only creates the link object. Wiring it into the two lists is left to `MemberAddLink` and `GameAddLink`, as in the source.

