# JWT authentication pipeline of the `back_dt` Spring back end, in Dafny

The back end signs users up, logs them in and authenticates later requests with
JSON Web Tokens. This project models that pipeline:

- **TokenProvider** issues an access/refresh token pair on login (HS512-signed JWS
  compact strings; the access token carries `sub` = user id, `auth` = the
  comma-joined authority names and an `exp` one hour ahead, the refresh token only
  an `exp` seven days ahead), validates tokens, and rebuilds an `Authentication`
  from a token's claims.
- **JwtFilter** runs on every request: it takes the token behind `Bearer ` in the
  `Authorization` header and, when the token validates, stores the rebuilt
  `Authentication` in the request's security context before passing the request on.
- **UserServiceImpl** signs up (encoded password, role `USER`), checks whether an
  id, nickname or email is taken, logs in (authenticate, set the context, issue the
  pair, store the refresh token in the user's row) and returns the current user.
- **CustomUserDetailsService** turns a stored user into the `UserDetails` that
  Spring Security authenticates against.
- **UserController** validates request bodies (`SignUpRequestDto`,
  `LoginRequestDto`), runs the duplicate checks, and returns the token pair both as
  the body and as `Auth`/`Refresh` headers.
- **User** is the `users` entity, whose only mutator is `saveToken`.

The JJWT library is not reimplemented: `Jws.Codec` holds its two operations
(`compact`, `parse`) as function values, and three predicates state what the
library guarantees of them. `RoundTrips`: a token signed under a key of at least
512 bits, with an `exp` claim, parses back under that key to the claims that were
signed, with a subject without text dropped (as `setSubject` does) and `exp`
rounded down to whole seconds (a JWT NumericDate, section 4.1.4 of RFC 7519),
expired or not according to the clock. Shorter keys are outside the law because
JJWT refuses them: `TokenProvider.AfterPropertiesSet` fails below 256 bits and
`TokenProvider.GenerateTokenDto` fails with a WeakKeyException below 512 bits, so
a token is only ever compacted under a key the law covers, and every token issued
here has an `exp`. `ExpiryByClock`: whatever string
the parser accepts is classified as expired by its `exp` and the clock alone.
`RefusesBlank`: blank input is an `IllegalArgumentException`. Nothing else is
assumed of accepted strings: the parser may accept spellings of a token other than
the one `compact` wrote (characters outside the base64url alphabet at the ends of a
segment are skipped, and the last signature character has unused bits), and a JWS
signed under the key by other means may carry any claims, a subject without text
included. So no property here is stated about the text of an accepted token, and
none assumes that its claims are ones `compact` would write. Each lemma requires
only the laws it uses. `JwsWitness.WitnessIsLawful` exhibits a codec that satisfies
all three; `JwsWitness.WitnessAcceptsOtherSpellings` and
`JwsWitness.WitnessKeepsBlankSubject` show that such a codec may accept a token
with a character appended and return a subject without text unchanged.

`JwtFilter` is neither a `@Component` nor added to the filter chain in
`SecurityConfig.java`, so this application as configured never runs it; the
model describes what the filter does when it is installed.

The parts of `java.lang.String`, Spring's `StringUtils`, Hibernate Validator's
`@NotBlank` and the Java regex engine that decide outcomes are modelled exactly
(`JavaText`, `SignUpRequest`): `Character.isWhitespace`, `hasText`, `trim`,
`split(",")` with its dropping of trailing empty strings, `Collectors.joining`, and
the two `@Pattern` expressions. So are the library checks that turn into exceptions
on this path: `SimpleGrantedAuthority` refuses a name without text, Spring's
`User` refuses a null or empty username and a null password, and the password
encoder refuses a null password.

Files: `wrappers.dfy`, `java_text.dfy`, `jws.dfy`, `jws_witness.dfy`,
`security.dfy`, `token_provider.dfy`, `jwt_filter.dfy`, `domain.dfy`,
`user_repository.dfy`, `user_details_service.dfy`, `signup_request.dfy`,
`user_service.dfy`, `user_controller.dfy`. Source paths below are relative to
the repository root.

## Model

| member | source | states |
|---|---|---|
| JavaText.SplitJoin | back_dt/src/main/java/com/example/demo/jwt/TokenProvider.java:83-85 | splitting the comma-joined authority names on "," gives back exactly the list, when it is non-empty and every name is non-empty and comma-free |
| JavaText.JoinNothingSplitsToEmptyPiece | back_dt/src/main/java/com/example/demo/jwt/TokenProvider.java:104 | an empty authority list joins to "" and "" splits into one empty piece, not into nothing |
| JavaText.Split | back_dt/src/main/java/com/example/demo/jwt/TokenProvider.java:104 | no piece of `split(",")` contains a comma |
| Jws.OnWire | back_dt/src/main/java/com/example/demo/jwt/TokenProvider.java:58-61 | the claims that reach the token: the subject only if it has text, `auth` as given, `exp` rounded to a whole second |
| Jws.SignedOutcome | back_dt/src/main/java/com/example/demo/jwt/TokenProvider.java:119 | a correctly signed token parses to its claims in wire form, Verified exactly while they are live and Expired after |
| Jws.Live | back_dt/src/main/java/com/example/demo/jwt/TokenProvider.java:124 | a token is live while the clock is not after its `exp` (no clock skew); one without `exp` never expires |
| Jws.SignedTokensHaveText | back_dt/src/main/java/com/example/demo/jwt/JwtFilter.java:62 | a token signed under an HS512-strength key over claims with an `exp` always has text, so the `hasText` test never rejects one |
| Jws.WireInstant | back_dt/src/main/java/com/example/demo/jwt/TokenProvider.java:61 | the expiry that reaches the token is a whole second, at most 999 ms before the instant set |
| TokenProvider.GenerateTokenDto | back_dt/src/main/java/com/example/demo/jwt/TokenProvider.java:53-78 | a WeakKeyException exactly when the key is under 512 bits; otherwise grant type "bearer", expiry time `now` + 3 600 000 ms, access token signed over (user id, authorities, that expiry), refresh token signed over only an expiry `now` + 604 800 000 ms |
| TokenProvider.AfterPropertiesSet | back_dt/src/main/java/com/example/demo/jwt/TokenProvider.java:45-50 | the provider starts exactly when the key has at least 256 bits, and then holds that key; a shorter one is a WeakKeyException |
| TokenProvider.ShortKeyIssuesNothing | back_dt/src/main/java/com/example/demo/jwt/TokenProvider.java:45-68 | a key of 256 to 511 bits lets the provider start, and then every token request fails with a WeakKeyException |
| TokenProvider.GenerateTokenDtoFor | back_dt/src/main/java/com/example/demo/jwt/TokenProvider.java:81-89 | the pair for an Authentication is the pair for its name and its authority names joined with "," |
| TokenProvider.ParseClaims | back_dt/src/main/java/com/example/demo/jwt/TokenProvider.java:135-142 | yields claims exactly when the token is correctly signed, expired or not; any other parse failure propagates unchanged |
| TokenProvider.GetAuthentication | back_dt/src/main/java/com/example/demo/jwt/TokenProvider.java:92-113 | parse failures propagate, a token without `auth` throws, and a result has the token's non-empty subject as name, the token as credentials and the split `auth` claim as authorities, each with text and comma-free |
| TokenProvider.ValidateToken | back_dt/src/main/java/com/example/demo/jwt/TokenProvider.java:116-132 | true only for tokens whose claims parse; an expired token is refused |
| TokenProvider.IssuedTokensParse | back_dt/src/main/java/com/example/demo/jwt/TokenProvider.java:53-78 | whenever a pair is issued, both tokens parse back, at any time, to the claims put in them, with the expiry rounded to whole seconds and a user id without text dropped |
| TokenProvider.Lifetimes | back_dt/src/main/java/com/example/demo/jwt/TokenProvider.java:32-33 | each token of an issued pair validates exactly up to its expiry rounded down to a whole second: the access token up to the last whole second of its hour, the refresh token of its seven days, and the refresh token whenever the access token does |
| TokenProvider.ValidIffLive | back_dt/src/main/java/com/example/demo/jwt/TokenProvider.java:116-132 | a token validates if and only if the parser recovers claims from it and they have not expired |
| TokenProvider.ExpiredStillYieldsClaims | back_dt/src/main/java/com/example/demo/jwt/TokenProvider.java:138-141 | an expired, correctly signed token still yields its claims while validation refuses it |
| TokenProvider.AuthenticationRoundTrip | back_dt/src/main/java/com/example/demo/jwt/TokenProvider.java:81-113 | an access token issued for an Authentication (a name with text, comma-free authority names with text) rebuilds that Authentication, with the token as credentials, at any later time |
| TokenProvider.BlankSubjectNoAuthentication | back_dt/src/main/java/com/example/demo/jwt/TokenProvider.java:92-113 | an access token issued for a name without text (which `@NotBlank` can let through) has no subject, so it yields no Authentication |
| TokenProvider.RefreshTokenIsAnonymous | back_dt/src/main/java/com/example/demo/jwt/TokenProvider.java:66-69 | two logins at the same instant are both issued or both refused, and get the same refresh token, whoever logs in |
| TokenProvider.RefreshTokenHasNoAuthorities | back_dt/src/main/java/com/example/demo/jwt/TokenProvider.java:97-99 | an issued refresh token never yields an Authentication: it has no `auth` claim |
| TokenProvider.NoAuthoritiesNoAuthentication | back_dt/src/main/java/com/example/demo/jwt/TokenProvider.java:104-108 | an Authentication without authorities is issued a token that cannot be turned back into an Authentication |
| JwtFilter.ResolveToken | back_dt/src/main/java/com/example/demo/jwt/JwtFilter.java:85-95 | a token is returned if and only if the header has text and starts with "Bearer ", and it is the header with that prefix removed |
| JwtFilter.ResolveBearer | back_dt/src/main/java/com/example/demo/jwt/JwtFilter.java:85-95 | any token written behind "Bearer " is resolved unchanged |
| JwtFilter.OtherSchemesResolveToNothing | back_dt/src/main/java/com/example/demo/jwt/JwtFilter.java:29 | the prefix is case-sensitive: "bearer ", another scheme, or no header give no token |
| JwtFilter.Decide | back_dt/src/main/java/com/example/demo/jwt/JwtFilter.java:57-74 | the context is touched (or the call throws) if and only if the resolved token has text and validates; then the outcome is exactly getAuthentication's |
| JwtFilter.SchemeEnforced | back_dt/src/main/java/com/example/demo/jwt/JwtFilter.java:85-95 | a request without a "Bearer " header is never authenticated |
| JwtFilter.OnlyLiveTokensAuthenticate | back_dt/src/main/java/com/example/demo/jwt/JwtFilter.java:62-66 | a request is authenticated only through a "Bearer " header whose token the parser verifies under the provider's key, whose claims are live and carry `auth`, and only as that token's subject |
| JwtFilter.IssuedAccessTokenAuthenticates | back_dt/src/main/java/com/example/demo/jwt/JwtFilter.java:62-66 | an issued access token presented before it expires authenticates the request as the Authentication it was issued for |
| JwtFilter.ExpiredAccessTokenSkipped | back_dt/src/main/java/com/example/demo/jwt/JwtFilter.java:70-74 | the same access token after its expiry (rounded to the second) leaves the request unauthenticated |
| JwtFilter.RefreshTokenAbortsRequest | back_dt/src/main/java/com/example/demo/jwt/JwtFilter.java:62-77 | a live refresh token presented as a bearer token makes doFilter throw, while the corrected gate lets the request through unauthenticated |
| JwtFilter.GuardedDecide | back_dt/src/main/java/com/example/demo/jwt/JwtFilter.java:62-77 | never aborts, and authenticates exactly when and as the original decision does |
| JwtFilter.FilterChain.DoFilter | back_dt/src/main/java/com/example/demo/jwt/JwtFilter.java:77 | counts one more forwarding of the request |
| JwtFilter.JwtFilter.DoFilter | back_dt/src/main/java/com/example/demo/jwt/JwtFilter.java:50-78 | sets the context only on Authenticate, forwards the request once unless getAuthentication throws, and then throws its error |
| JwtFilter.JwtFilter.GuardedDoFilter | back_dt/src/main/java/com/example/demo/jwt/JwtFilter.java:50-78 | forwards the request exactly once on every path and sets the context only for a token that yields an Authentication |
| Security.SecurityContext.SetAuthentication | back_dt/src/main/java/com/example/demo/jwt/JwtFilter.java:66 | the context then holds exactly that Authentication |
| Domain.RoleName | back_dt/src/main/java/com/example/demo/service/CustomUserDetailsService.java:53 | the role's authority name has text (SimpleGrantedAuthority accepts it) and contains no comma (it survives the join into `auth`) |
| Domain.User.SaveToken | back_dt/src/main/java/com/example/demo/domain/User.java:43-45 | stores the token, null included, and changes no other column |
| Domain.SaveTokenTwice | back_dt/src/main/java/com/example/demo/domain/User.java:43-45 | of two stored tokens the last one wins, and no other column changes |
| UserRepository.IndexWhere | back_dt/src/main/java/com/example/demo/service/impl/UserServiceImpl.java:76 | finds the first row meeting a column condition, or reports that no row meets it |
| UserRepository.Upsert | back_dt/src/main/java/com/example/demo/service/impl/UserServiceImpl.java:132 | a row replaces the row with its uid in place, or is appended when there is none |
| UserRepository.UidLocatesRow | back_dt/src/main/java/com/example/demo/service/impl/UserServiceImpl.java:129-132 | with distinct uids, a stored row's uid locates that row |
| UserRepository.ReplacingKeepsIndex | back_dt/src/main/java/com/example/demo/service/impl/UserServiceImpl.java:131-132 | replacing a row by one that agrees on the searched column keeps the first match where it was |
| UserRepository.UserRepository.FindByUsername | back_dt/src/main/java/com/example/demo/service/impl/UserServiceImpl.java:76 | a user is found if and only if some row has that username, and the one found has it |
| UserRepository.UserRepository.FindByNickname | back_dt/src/main/java/com/example/demo/service/impl/UserServiceImpl.java:89 | a user is found if and only if some row has that nickname, and the one found has it |
| UserRepository.UserRepository.FindByEmail | back_dt/src/main/java/com/example/demo/service/impl/UserServiceImpl.java:102 | a user is found if and only if some row has that email, and the one found has it |
| UserRepository.UserRepository.RowFor | back_dt/src/main/java/com/example/demo/domain/User.java:17-41 | the row written for an entity carries all of the entity's columns |
| UserRepository.UserRepository.Save | back_dt/src/main/java/com/example/demo/service/impl/UserServiceImpl.java:57 | keeps uids distinct and below the identity counter; writes the entity's row (insert or overwrite by uid) exactly when the integrity constraints admit it, and otherwise leaves rows and counter unchanged; the counter advances by one on each admitted insert only |
| CustomUserDetailsService.CreateUser | back_dt/src/main/java/com/example/demo/service/CustomUserDetailsService.java:46-57 | succeeds exactly for a non-empty username and a non-null password hash; the details carry that name, that hash and the role's name as the only authority |
| CustomUserDetailsService.CustomUserDetailsService.LoadUserByUsername | back_dt/src/main/java/com/example/demo/service/CustomUserDetailsService.java:33-37 | UsernameNotFound if and only if no row has the username; otherwise exactly createUser of the first such row: details with that name, its hash and its role, or NullOrEmptyValues when the hash is null or the name empty |
| CustomUserDetailsService.LoadedAuthoritiesJoinable | back_dt/src/main/java/com/example/demo/service/CustomUserDetailsService.java:48-56 | the authorities of loaded details are non-empty, have text and contain no comma, so they survive the token's `auth` join and split |
| SignUpRequest.AcceptedSignUp | back_dt/src/main/java/com/example/demo/dto/user/SignUpRequestDto.java:17-33 | a body that binds without errors has all five fields, a 4-16 character password of ASCII letters and digits with at least one of each, and a 2-11 character nickname |
| SignUpRequest.PwPatternMeaning | back_dt/src/main/java/com/example/demo/dto/user/SignUpRequestDto.java:21 | the password pattern means exactly: 4-16 ASCII letters and digits, at least one of each |
| SignUpRequest.SingleClassPasswordsRefused | back_dt/src/main/java/com/example/demo/dto/user/SignUpRequestDto.java:21 | all-digit and all-letter passwords are refused |
| SignUpRequest.NicknamePatternExamples | back_dt/src/main/java/com/example/demo/dto/user/SignUpRequestDto.java:29 | one character is refused, eleven accepted, twelve refused; `|` may lead; the tail admits anything but line terminators |
| SignUpRequest.PwPatternExamples | back_dt/src/main/java/com/example/demo/dto/user/SignUpRequestDto.java:21 | "abc1" accepted; too short, too long, single-class and spaced passwords refused |
| UserServiceImpl.SignupColumns | back_dt/src/main/java/com/example/demo/service/impl/UserServiceImpl.java:48-55 | the new row has the request's id as username, the encoded password, its email, nickname and phone, role USER and no token |
| UserServiceImpl.UserServiceImpl.Signup | back_dt/src/main/java/com/example/demo/service/impl/UserServiceImpl.java:46-65 | a null password throws before anything is stored; otherwise the USER row is appended exactly when the constraints admit it and the refusal is swallowed |
| UserServiceImpl.UserServiceImpl.CheckId | back_dt/src/main/java/com/example/demo/service/impl/UserServiceImpl.java:75-78 | true if and only if some stored user has that username |
| UserServiceImpl.UserServiceImpl.CheckNickname | back_dt/src/main/java/com/example/demo/service/impl/UserServiceImpl.java:88-91 | true if and only if some stored user has that nickname |
| UserServiceImpl.UserServiceImpl.CheckEmail | back_dt/src/main/java/com/example/demo/service/impl/UserServiceImpl.java:101-104 | true if and only if some stored user has that email |
| UserServiceImpl.UserServiceImpl.DoLogin | back_dt/src/main/java/com/example/demo/service/impl/UserServiceImpl.java:113-136 | a failed authentication changes nothing; a successful one sets the context, then either fails with the WeakKeyException of a short key and stores nothing, or returns the pair issued for it and leaves the user's row holding the refresh token (findable by username) or fails with the integrity error |
| UserServiceImpl.UserServiceImpl.GetMyInfo | back_dt/src/main/java/com/example/demo/service/impl/UserServiceImpl.java:146-151 | UserNotFound exactly when there is no current user or no row with that name; otherwise a stored row with that username |
| UserServiceImpl.LoginStoresRefreshToken | back_dt/src/main/java/com/example/demo/service/impl/UserServiceImpl.java:129-133 | the login's write-back changes only the logged-in user's row, and only its token |
| UserController.HeaderValue | back_dt/src/main/java/com/example/demo/controller/UserController.java:88-90 | the first value added under a header name, or none when no header has it |
| UserController.SignupCheck | back_dt/src/main/java/com/example/demo/controller/UserController.java:50-64 | InvalidParameter exactly on binding errors; otherwise DuplicateId exactly when a stored row shares the id, email or nickname |
| UserController.AppendKeepsAccountsUnique | back_dt/src/main/java/com/example/demo/controller/UserController.java:52-66 | appending a row whose id, email and nickname are all unused keeps them unique across the table |
| UserController.LoginResponse | back_dt/src/main/java/com/example/demo/controller/UserController.java:88-93 | status 200, the pair as the body, the access token under `Auth` and the refresh token under `Refresh` |
| UserController.LoginThenRequest | back_dt/src/main/java/com/example/demo/controller/UserController.java:88-93 | sending back the `Auth` header as a bearer token authenticates the next request as the logged-in user until expiry; sending back `Refresh` makes the filter as written throw, and the corrected filter pass the request on unauthenticated |
| UserController.UserController.Signup | back_dt/src/main/java/com/example/demo/controller/UserController.java:47-69 | the checks in order leave the table untouched on failure; otherwise "SUCCESS" with 200 and the row appended when admitted; id, email and nickname stay unique |
| UserController.UserController.DoLogin | back_dt/src/main/java/com/example/demo/controller/UserController.java:80-94 | binding errors and authentication failures change nothing and are reported; a successful authentication sets the context; a key too short to sign is reported and stores nothing; otherwise the answer is 200 with the issued pair as body and headers, the user's row then holding the refresh token, unless the database refuses that write, which is reported and leaves the rows as they were; a login for a name with no row answers 200 and stores nothing |
| JavaText.IsWhitespace | back_dt/src/main/java/com/example/demo/jwt/JwtFilter.java:89 | Character.isWhitespace, the test behind StringUtils.hasText: the space separators other than the no-break ones, the line and paragraph separators, and TAB through CR and FS through US |
| JavaText.HasText | back_dt/src/main/java/com/example/demo/jwt/JwtFilter.java:62 | StringUtils.hasText on a non-null string: some character is not whitespace |
| JavaText.SurvivesTrim | back_dt/src/main/java/com/example/demo/dto/user/SignUpRequestDto.java:17 | @NotBlank on a non-null string: something is left after trim, i.e. some character lies above U+0020 |
| JavaText.Join | back_dt/src/main/java/com/example/demo/jwt/TokenProvider.java:83-85 | Collectors.joining(","): one part joins to itself; see SplitJoin for its inverse |
| SignUpRequest.NotBlank | back_dt/src/main/java/com/example/demo/dto/user/SignUpRequestDto.java:17 | @NotBlank: not null and not blank after trim |
| SignUpRequest.PatternHolds | back_dt/src/main/java/com/example/demo/dto/user/SignUpRequestDto.java:21 | @Pattern: null is valid, otherwise the whole string must match |
| SignUpRequest.PwPattern | back_dt/src/main/java/com/example/demo/dto/user/SignUpRequestDto.java:21 | the password regex matched against the whole string, lookaheads included; PwPatternMeaning states what it amounts to |
| SignUpRequest.NicknameLead | back_dt/src/main/java/com/example/demo/dto/user/SignUpRequestDto.java:29 | the nickname's first character class: ASCII letters and digits, the Hangul jamo and syllable ranges, and a literal `|` |
| SignUpRequest.NicknamePattern | back_dt/src/main/java/com/example/demo/dto/user/SignUpRequestDto.java:29 | the nickname regex matched against the whole string: a lead character then 1 to 10 characters that are not line terminators |
| SignUpRequest.SignUpHasErrors | back_dt/src/main/java/com/example/demo/dto/user/SignUpRequestDto.java:17-33 | the signup body has a binding error exactly when one of its declared constraints fails |
| SignUpRequest.LoginHasErrors | back_dt/src/main/java/com/example/demo/dto/user/LoginRequestDto.java:10-13 | the login body has a binding error exactly when the username or the password is blank |
| UserRepository.UserRepository.Valid | back_dt/src/main/java/com/example/demo/domain/User.java:17-20 | the identity column: no two rows share a uid, and every uid is below the next value the database will generate |

## Left out

- The HS512 signature and the JSON and base64url encoding of JJWT: the library is the
  `Jws.Codec` argument constrained by `Jws.RoundTrips`, `Jws.ExpiryByClock` and
  `Jws.RefusesBlank`. The key's length is modelled (the WeakKeyException of a key
  under 256 bits at startup and under 512 bits at signing); its bytes are opaque.
- The base64 decoding of the configured secret in `afterPropertiesSet`
  (`TokenProvider.java:47`): `AfterPropertiesSet` takes the decoded bytes, so a secret
  that is not base64 (a DecodingException at startup) is not modelled.
- Which strings the parser accepts for a given token: the model does not describe the
  alternative spellings JJWT accepts, nor that only a holder of the key can produce an
  accepted string (a cryptographic assumption). Properties of accepted tokens are
  therefore stated about the claims recovered, not about the token text.
- JJWT exceptions outside the six parse outcomes, such as a premature `nbf` or a
  DecodingException for an illegal character inside a segment: `validateToken` does not
  catch the latter, so it would escape `doFilter`. The issued tokens raise none of them.
- The wall clock: every operation that reads `new Date()` takes the instant `now` in
  epoch milliseconds as a parameter. A Java `long` cannot overflow at realistic instants,
  so the 64-bit width is not modelled.
- Logging, `printStackTrace` and the request URI, which only feed logs.
- The thread-local `SecurityContextHolder`: the context is an explicit object per request;
  concurrency between requests is not modelled.
- The `AuthenticationManager` (which uses `CustomUserDetailsService` and the password
  encoder): `DoLogin` takes it as a function of the two credentials.
- The password encoder is a fixed function `encode`; BCrypt's random salt is not modelled.
- `@Email` is a predicate supplied by the caller; the remaining Bean Validation
  constraints are modelled exactly.
- `SecurityUtil.getCurrentUsername` is not part of this model: `GetMyInfo` takes its
  answer as a parameter.
- `UserRepository.java` is not part of this model: the repository is a table of rows with
  an identity counter; the database's integrity constraints are a predicate `admits`.
  Duplicate usernames would make Spring Data throw `IncorrectResultSizeDataAccessException`;
  the model returns the first match.
- UserServiceImpl.UserServiceImpl.Signup: does not model the transaction that the class
  level `@Transactional` opens; after a caught `DataIntegrityViolationException` Spring
  marks it rollback-only and the commit fails, so the controller would not answer
  "SUCCESS" in that case, whereas the model stores nothing and returns normally.
- UserRepository.UserRepository.Save: the generated uid is not written back into the
  entity object.
- `Role.java` is not part of this model: `USER` is the only role, and its `toString` is
  its name.
- Strings are sequences of code points, not UTF-16 units; no character outside the Basic
  Multilingual Plane is special anywhere on this path.
- Credentials erasure by the `AuthenticationManager` after login is not modelled; the
  `Authentication` is kept as returned.
- `SecurityConfig`, `WebMvcConfig`, `SwaggerConfig`, the exception classes' messages and
  the front end are outside the pipeline modelled here.

## Findings

| source | as written | input that shows it | evidently intended | confidence | as-written member | corrected member |
|---|---|---|---|---|---|---|
| back_dt/src/main/java/com/example/demo/jwt/JwtFilter.java:62-77 | a token that validates is passed to `getAuthentication`, which throws for a token without `auth`; the exception leaves `doFilter` before `chain.doFilter` | `Authorization: Bearer <refreshToken>` with the refresh token returned by the login, sent within its seven days | a validated token that yields no Authentication leaves the request unauthenticated and still forwards it, as for an invalid token | medium, not executed | JwtFilter.RefreshTokenAbortsRequest | JwtFilter.JwtFilter.GuardedDoFilter |
