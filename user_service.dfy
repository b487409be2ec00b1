/**
 * UserServiceImpl: signup, the duplicate checks, login and "my info", over the
 * in-memory repository.
 */
module UserServiceImpl {
  import opened Wrappers
  import opened JavaText
  import opened Jws
  import opened Security
  import opened TokenProvider
  import opened Domain
  import opened UserRepository
  import opened SignUpRequest

  /** Exceptions that leave the service. */
  datatype ServiceError =
    | NullPassword                        // the password encoder refuses a null password
    | AuthenticationFailed(reason: string) // an AuthenticationException from the manager
    | TokenNotIssued(cause: KeyError)     // generateTokenDto's WeakKeyException
    | DataIntegrityViolation              // the login's re-save was refused by the database
    | UserNotFound                        // UserNotFoundException

  /** The row signup inserts, before the repository gives it a uid. */
  function SignupColumns(dto: SignUpRequestDto, hashed: string, uid: nat): (row: UserRecord)
    ensures row.username == dto.id && row.pw == Some(hashed) && row.email == dto.email
    ensures row.nickname == dto.nickname && row.role == USER && row.phone == dto.phone && row.token == None
    ensures row.uid == uid
  {
    UserRecord(uid, dto.id, Some(hashed), dto.email, dto.nickname, USER, dto.phone, None)
  }

  class UserServiceImpl {
    const userRepository: UserRepository
    const tokenProvider: Provider
    /** passwordEncoder.encode. */
    const encode: string -> string

    constructor (userRepository: UserRepository, tokenProvider: Provider, encode: string -> string)
      ensures this.userRepository == userRepository && this.tokenProvider == tokenProvider && this.encode == encode
    {
      this.userRepository := userRepository;
      this.tokenProvider := tokenProvider;
      this.encode := encode;
    }

    /** signup: store a USER row with the request's columns and the encoded
        password. A DataIntegrityViolationException from save is caught, and the
        store is then unchanged; only a null password escapes, from the encoder. */
    method Signup(dto: SignUpRequestDto) returns (thrown: Option<ServiceError>)
      requires userRepository.Valid()
      modifies userRepository
      ensures userRepository.Valid()
      ensures thrown == (if dto.pw.None? then Some(NullPassword) else None)
      ensures dto.pw.None? ==> userRepository.rows == old(userRepository.rows)
      ensures dto.pw.Some? ==>
        var row := SignupColumns(dto, encode(dto.pw.value), old(userRepository.nextUid));
        userRepository.rows == (if userRepository.admits(row) then old(userRepository.rows) + [row] else old(userRepository.rows))
    {
      if dto.pw.None? {
        return Some(NullPassword);
      }
      var user := new User(None, dto.id, Some(encode(dto.pw.value)), dto.email, dto.nickname, USER, dto.phone, None);
      assert userRepository.RowFor(user) == SignupColumns(dto, encode(dto.pw.value), userRepository.nextUid);
      assert IndexWhere(userRepository.rows, UidIs(userRepository.nextUid)).None?;
      var saved := userRepository.Save(user);
      return None;
    }

    /** checkId: whether some stored user has this username. */
    function CheckId(username: string): (r: bool)
      reads userRepository
      ensures r <==> exists i :: 0 <= i < |userRepository.rows| && userRepository.rows[i].username == Some(username)
    {
      userRepository.FindByUsername(username).Some?
    }

    /** checkNickname: whether some stored user has this nickname. */
    function CheckNickname(nickname: string): (r: bool)
      reads userRepository
      ensures r <==> exists i :: 0 <= i < |userRepository.rows| && userRepository.rows[i].nickname == Some(nickname)
    {
      userRepository.FindByNickname(nickname).Some?
    }

    /** checkEmail: whether some stored user has this email. */
    function CheckEmail(email: string): (r: bool)
      reads userRepository
      ensures r <==> exists i :: 0 <= i < |userRepository.rows| && userRepository.rows[i].email == Some(email)
    {
      userRepository.FindByEmail(email).Some?
    }

    /** doLogin: authenticate the credentials (the AuthenticationManager is the
        `authenticate` argument), put the result into the security context, issue
        the token pair for it and write the refresh token into the user's row. */
    method DoLogin(loginDto: LoginRequestDto, authenticate: (Option<string>, Option<string>) -> Result<Authentication, string>,
                   now: nat, context: SecurityContext) returns (r: Result<TokenDto, ServiceError>)
      requires userRepository.Valid()
      modifies userRepository, context
      ensures userRepository.Valid()
      ensures authenticate(loginDto.username, loginDto.pw).Failure? ==>
        && r == Failure(AuthenticationFailed(authenticate(loginDto.username, loginDto.pw).error))
        && context.authentication == old(context.authentication)
        && userRepository.rows == old(userRepository.rows)
      ensures authenticate(loginDto.username, loginDto.pw).Success? ==>
        var a := authenticate(loginDto.username, loginDto.pw).value;
        var issued := GenerateTokenDtoFor(tokenProvider, a, now);
        && context.authentication == Some(a)
        && (issued.Failure? ==> r == Failure(TokenNotIssued(issued.error)) && userRepository.rows == old(userRepository.rows))
        && (issued.Success? ==>
              var dto := issued.value;
              var found := old(userRepository.FindByUsername(a.name));
              var updated := if found.Some? then found.value.(token := Some(dto.refreshToken)) else UserRecord(0, None, None, None, None, USER, None, None);
              && (found.None? ==> r == Success(dto) && userRepository.rows == old(userRepository.rows))
              && (found.Some? && userRepository.admits(updated) ==>
                    && r == Success(dto) && userRepository.rows == Upsert(old(userRepository.rows), updated)
                    && userRepository.FindByUsername(a.name) == Some(updated))
              && (found.Some? && !userRepository.admits(updated) ==>
                    r == Failure(DataIntegrityViolation) && userRepository.rows == old(userRepository.rows)))
    {
      var authentication := authenticate(loginDto.username, loginDto.pw);
      if authentication.Failure? {
        return Failure(AuthenticationFailed(authentication.error));
      }
      var a := authentication.value;
      context.SetAuthentication(a);
      var issued := GenerateTokenDtoFor(tokenProvider, a, now);
      if issued.Failure? {
        return Failure(TokenNotIssued(issued.error));
      }
      var tokenDto := issued.value;
      var entity := userRepository.FindByUsername(a.name);
      if entity.Some? {
        var user := new User.Load(entity.value);
        user.SaveToken(Some(tokenDto.refreshToken));
        ghost var i :| 0 <= i < |userRepository.rows| && userRepository.rows[i] == entity.value;
        UidLocatesRow(userRepository.rows, i);
        assert userRepository.RowFor(user) == entity.value.(token := Some(tokenDto.refreshToken));
        ghost var updated := entity.value.(token := Some(tokenDto.refreshToken));
        ghost var before := userRepository.rows;
        var saved := userRepository.Save(user);
        if saved {
          assert userRepository.rows == before[i := updated];
          ReplacingKeepsIndex(before, i, updated, UsernameIs(a.name));
        }
        if !saved {
          return Failure(DataIntegrityViolation);
        }
      }
      return Success(tokenDto);
    }

    /** getMyInfo: the stored user named by the current authentication
        (SecurityUtil's answer is the `currentUsername` argument). */
    function GetMyInfo(currentUsername: Option<string>): (r: Result<UserRecord, ServiceError>)
      reads userRepository
      ensures r.Failure? <==> currentUsername.None? || !CheckId(currentUsername.value)
      ensures r.Failure? ==> r.error == UserNotFound
      ensures r.Success? ==> r.value in userRepository.rows && r.value.username == currentUsername
    {
      if currentUsername.None? then Failure(UserNotFound)
      else
        match userRepository.FindByUsername(currentUsername.value)
        case None => Failure(UserNotFound)
        case Some(user) => Success(user)
    }
  }

  /** After a successful login for a stored user whose row was written back,
      that user's row holds the returned refresh token, and every other row is
      as it was. */
  lemma {:induction false} LoginStoresRefreshToken(rows: seq<UserRecord>, found: UserRecord, refreshToken: string)
    requires DistinctUids(rows)
    requires found in rows
    ensures var after := Upsert(rows, found.(token := Some(refreshToken)));
      && |after| == |rows|
      && forall j :: 0 <= j < |rows| ==>
           after[j] == (if rows[j] == found then found.(token := Some(refreshToken)) else rows[j])
  {
    var i :| 0 <= i < |rows| && rows[i] == found;
    UidLocatesRow(rows, i);
  }
}
