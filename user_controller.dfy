/**
 * UserController: the signup and login endpoints.
 */
module UserController {
  import opened Wrappers
  import opened JavaText
  import opened Jws
  import opened Security
  import opened TokenProvider
  import opened JwtFilter
  import opened Domain
  import opened UserRepository
  import opened SignUpRequest
  import opened UserServiceImpl

  datatype ControllerError =
    | InvalidParameter          // InvalidParameterException
    | DuplicateId               // DuplicateIdException, for a taken id, email or nickname
    | Service(error: ServiceError)

  /** A ResponseEntity: body, headers in the order they were added, status code. */
  datatype ResponseEntity<T> = ResponseEntity(body: T, headers: seq<(string, string)>, status: nat)

  const HTTP_OK: nat := 200

  /** The first value of a header. */
  function HeaderValue(headers: seq<(string, string)>, name: string): (r: Option<string>)
    ensures r.Some? ==> exists i ::
      && 0 <= i < |headers| && headers[i] == (name, r.value)
      && (forall j :: 0 <= j < i ==> headers[j].0 != name)
    ensures r.None? ==> forall i :: 0 <= i < |headers| ==> headers[i].0 != name
  {
    if |headers| == 0 then None
    else if headers[0].0 == name then Some(headers[0].1)
    else HeaderValue(headers[1..], name)
  }

  /** No two rows share a username, an email or a nickname. */
  ghost predicate UniqueAccounts(rows: seq<UserRecord>) {
    forall i, j :: 0 <= i < j < |rows| ==>
      && (rows[i].username.Some? ==> rows[i].username != rows[j].username)
      && (rows[i].email.Some? ==> rows[i].email != rows[j].email)
      && (rows[i].nickname.Some? ==> rows[i].nickname != rows[j].nickname)
  }

  /** The check chain of signup, in its order: binding errors first, then a
      taken id, email or nickname, all three reported as DuplicateId. */
  function SignupCheck(service: UserServiceImpl, dto: SignUpRequestDto, isEmail: string -> bool): (r: Option<ControllerError>)
    reads service.userRepository
    ensures SignUpHasErrors(dto, isEmail) <==> r == Some(InvalidParameter)
    ensures r == Some(DuplicateId) <==>
      && !SignUpHasErrors(dto, isEmail)
      && exists i :: 0 <= i < |service.userRepository.rows| &&
           (|| service.userRepository.rows[i].username == dto.id
            || service.userRepository.rows[i].email == dto.email
            || service.userRepository.rows[i].nickname == dto.nickname)
    ensures r.None? || r == Some(InvalidParameter) || r == Some(DuplicateId)
  {
    if SignUpHasErrors(dto, isEmail) then Some(InvalidParameter)
    else if service.CheckId(dto.id.value) then Some(DuplicateId)
    else if service.CheckEmail(dto.email.value) then Some(DuplicateId)
    else if service.CheckNickname(dto.nickname.value) then Some(DuplicateId)
    else None
  }

  /** A row whose username, email and nickname are present and unused keeps the
      accounts unique when appended. */
  lemma {:induction false} AppendKeepsAccountsUnique(rows: seq<UserRecord>, row: UserRecord)
    requires UniqueAccounts(rows)
    requires row.username.Some? && row.email.Some? && row.nickname.Some?
    requires forall i :: 0 <= i < |rows| ==>
      rows[i].username != row.username && rows[i].email != row.email && rows[i].nickname != row.nickname
    ensures UniqueAccounts(rows + [row])
  {
    var after := rows + [row];
    forall i, j | 0 <= i < j < |after|
      ensures && (after[i].username.Some? ==> after[i].username != after[j].username)
              && (after[i].email.Some? ==> after[i].email != after[j].email)
              && (after[i].nickname.Some? ==> after[i].nickname != after[j].nickname)
    {
      if j == |rows| {
        assert after[j] == row && after[i] == rows[i];
      } else {
        assert after[i] == rows[i] && after[j] == rows[j];
      }
    }
  }

  /** The response of a successful login. */
  function LoginResponse(tokenDto: TokenDto): (r: ResponseEntity<TokenDto>)
    ensures r.body == tokenDto && r.status == 200
    ensures HeaderValue(r.headers, "Auth") == Some(tokenDto.accessToken)
    ensures HeaderValue(r.headers, "Refresh") == Some(tokenDto.refreshToken)
  {
    ResponseEntity(tokenDto, [("Auth", tokenDto.accessToken), ("Refresh", tokenDto.refreshToken)], HTTP_OK)
  }

  /** The client's next request, carrying "Bearer " and the Auth header of a
      login response, is authenticated by JwtFilter as the login's
      Authentication until the access token expires; the Refresh header used the
      same way makes the filter throw as written, and the corrected filter
      forward the request unauthenticated. */
  lemma {:induction false} LoginThenRequest(p: Provider, a: Authentication, now: nat, t: nat)
    requires RoundTrips(p.codec) && RefusesBlank(p.codec)
    requires HasText(a.name) && JoinableAuthorities(a.authorities)
    requires t <= WireInstant(now + ACCESS_TOKEN_EXPIRE_TIME)
    ensures var issued := GenerateTokenDtoFor(p, a, now);
      issued.Success? ==>
      var response := LoginResponse(issued.value);
      && Decide(p, Some("Bearer " + HeaderValue(response.headers, "Auth").value), t)
           == Authenticate(Authentication(a.name, Some(response.body.accessToken), a.authorities))
      && Decide(p, Some("Bearer " + HeaderValue(response.headers, "Refresh").value), t)
           == Abort(MissingAuthorities)
      && GuardedDecide(p, Some("Bearer " + HeaderValue(response.headers, "Auth").value), t)
           == Authenticate(Authentication(a.name, Some(response.body.accessToken), a.authorities))
      && GuardedDecide(p, Some("Bearer " + HeaderValue(response.headers, "Refresh").value), t) == Skip
  {
    if GenerateTokenDtoFor(p, a, now).Failure? {
      return;
    }
    IssuedAccessTokenAuthenticates(p, a, now, t);
    assert WireInstant(now + ACCESS_TOKEN_EXPIRE_TIME) <= WireInstant(now + REFRESH_TOKEN_EXPIRE_TIME);
    RefreshTokenAbortsRequest(p, a.name, Join(a.authorities), now, t);
  }

  class UserController {
    const userService: UserServiceImpl

    constructor (userService: UserServiceImpl)
      ensures this.userService == userService
    {
      this.userService := userService;
    }

    /** signup: the check chain, then userService.signup, then "SUCCESS" with 200.
        Signup only ever appends a row whose id, email and nickname are unused,
        so it keeps the accounts unique. */
    method Signup(requestDto: SignUpRequestDto, isEmail: string -> bool)
      returns (r: Result<ResponseEntity<string>, ControllerError>)
      requires userService.userRepository.Valid()
      modifies userService.userRepository
      ensures userService.userRepository.Valid()
      ensures old(SignupCheck(userService, requestDto, isEmail)).Some? ==>
        && r == Failure(old(SignupCheck(userService, requestDto, isEmail)).value)
        && userService.userRepository.rows == old(userService.userRepository.rows)
      ensures old(SignupCheck(userService, requestDto, isEmail)).None? ==>
        && r == Success(ResponseEntity("SUCCESS", [], 200))
        && var row := SignupColumns(requestDto, userService.encode(requestDto.pw.value), old(userService.userRepository.nextUid));
           userService.userRepository.rows ==
             if userService.userRepository.admits(row) then old(userService.userRepository.rows) + [row]
             else old(userService.userRepository.rows)
      ensures old(UniqueAccounts(userService.userRepository.rows)) ==> UniqueAccounts(userService.userRepository.rows)
    {
      if SignUpHasErrors(requestDto, isEmail) {
        return Failure(InvalidParameter);
      } else if userService.CheckId(requestDto.id.value) {
        return Failure(DuplicateId);
      } else if userService.CheckEmail(requestDto.email.value) {
        return Failure(DuplicateId);
      } else if userService.CheckNickname(requestDto.nickname.value) {
        return Failure(DuplicateId);
      }
      ghost var before := userService.userRepository.rows;
      ghost var row := SignupColumns(requestDto, userService.encode(requestDto.pw.value), userService.userRepository.nextUid);
      var thrown := userService.Signup(requestDto);
      assert thrown.None?;  // @NotBlank guarantees a password, so the encoder cannot throw
      if UniqueAccounts(before) && userService.userRepository.admits(row) {
        AppendKeepsAccountsUnique(before, row);
      }
      return Success(ResponseEntity("SUCCESS", [], HTTP_OK));
    }

    /** doLogin: binding errors throw before the service is called; otherwise
        the TokenDto is returned as the body and its two tokens as the Auth and
        Refresh headers. */
    method DoLogin(requestDto: LoginRequestDto, authenticate: (Option<string>, Option<string>) -> Result<Authentication, string>,
                   now: nat, context: SecurityContext) returns (r: Result<ResponseEntity<TokenDto>, ControllerError>)
      requires userService.userRepository.Valid()
      modifies userService.userRepository, context
      ensures userService.userRepository.Valid()
      ensures LoginHasErrors(requestDto) ==>
        && r == Failure(InvalidParameter)
        && userService.userRepository.rows == old(userService.userRepository.rows)
        && context.authentication == old(context.authentication)
      ensures !LoginHasErrors(requestDto) && authenticate(requestDto.username, requestDto.pw).Failure? ==>
        && r == Failure(Service(AuthenticationFailed(authenticate(requestDto.username, requestDto.pw).error)))
        && userService.userRepository.rows == old(userService.userRepository.rows)
        && context.authentication == old(context.authentication)
      ensures !LoginHasErrors(requestDto) && authenticate(requestDto.username, requestDto.pw).Success? ==>
        var a := authenticate(requestDto.username, requestDto.pw).value;
        var issued := GenerateTokenDtoFor(userService.tokenProvider, a, now);
        && context.authentication == Some(a)
        && (issued.Failure? ==>
              && r == Failure(Service(TokenNotIssued(issued.error)))
              && userService.userRepository.rows == old(userService.userRepository.rows))
        && (issued.Success? ==>
              var dto := issued.value;
              var found := old(userService.userRepository.FindByUsername(a.name));
              var updated := if found.Some? then found.value.(token := Some(dto.refreshToken)) else UserRecord(0, None, None, None, None, USER, None, None);
              && (found.None? ==> r == Success(LoginResponse(dto)) && userService.userRepository.rows == old(userService.userRepository.rows))
              && (found.Some? && userService.userRepository.admits(updated) ==>
                    && r == Success(LoginResponse(dto))
                    && userService.userRepository.rows == Upsert(old(userService.userRepository.rows), updated)
                    && userService.userRepository.FindByUsername(a.name) == Some(updated))
              && (found.Some? && !userService.userRepository.admits(updated) ==>
                    && r == Failure(Service(DataIntegrityViolation))
                    && userService.userRepository.rows == old(userService.userRepository.rows)))
    {
      if LoginHasErrors(requestDto) {
        return Failure(InvalidParameter);
      }
      var tokenDto := userService.DoLogin(requestDto, authenticate, now, context);
      if tokenDto.Failure? {
        return Failure(Service(tokenDto.error));
      }
      var headers: seq<(string, string)> := [];
      headers := headers + [("Auth", tokenDto.value.accessToken)];
      headers := headers + [("Refresh", tokenDto.value.refreshToken)];
      assert ResponseEntity(tokenDto.value, headers, HTTP_OK) == LoginResponse(tokenDto.value);
      return Success(ResponseEntity(tokenDto.value, headers, HTTP_OK));
    }
  }
}
