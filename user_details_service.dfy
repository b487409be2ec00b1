/**
 * CustomUserDetailsService: the UserDetails Spring Security authenticates
 * against, built from the stored row.
 */
module CustomUserDetailsService {
  import opened Wrappers
  import opened Domain
  import opened UserRepository
  import opened TokenProvider

  /** Spring's userdetails.User: username, password hash, granted authorities. */
  datatype UserDetails = UserDetails(username: string, password: string, authorities: seq<string>)

  datatype LoadError =
    | UsernameNotFound(username: string)  // UsernameNotFoundException
    | NullOrEmptyValues                   // IllegalArgumentException from Spring's User constructor

  /** createUser: the role's name as the only authority; Spring's User refuses an
      empty username or a null password. */
  function CreateUser(username: string, user: UserRecord): (r: Result<UserDetails, LoadError>)
    ensures r.Success? <==> username != "" && user.pw.Some?
    ensures r.Failure? ==> r.error == NullOrEmptyValues
    ensures r.Success? ==>
      && r.value.username == username
      && Some(r.value.password) == user.pw
      && |r.value.authorities| == 1 && r.value.authorities[0] == RoleName(user.role)
  {
    if username == "" || user.pw.None? then Failure(NullOrEmptyValues)
    else Success(UserDetails(username, user.pw.value, [RoleName(user.role)]))
  }

  class CustomUserDetailsService {
    const userRepository: UserRepository

    constructor (userRepository: UserRepository)
      ensures this.userRepository == userRepository
    {
      this.userRepository := userRepository;
    }

    /** loadUserByUsername: the details of the user stored under `username`;
        being a function it reads the store and cannot change it. */
    function LoadUserByUsername(username: string): (r: Result<UserDetails, LoadError>)
      reads userRepository
      ensures (forall i :: 0 <= i < |userRepository.rows| ==> userRepository.rows[i].username != Some(username))
        <==> r == Failure(UsernameNotFound(username))
      ensures r.Success? ==> exists i ::
        && 0 <= i < |userRepository.rows|
        && userRepository.rows[i].username == Some(username)
        && Some(r.value.password) == userRepository.rows[i].pw
        && r.value.authorities == [RoleName(userRepository.rows[i].role)]
      ensures r.Success? ==> r.value.username == username
      ensures userRepository.FindByUsername(username).Some? ==>
        r == CreateUser(username, userRepository.FindByUsername(username).value)
    {
      match userRepository.FindByUsername(username)
      case None => Failure(UsernameNotFound(username))
      case Some(user) => CreateUser(username, user)
    }
  }

  /** The authorities of loaded details survive the comma join into a token's
      `auth` claim and the split back, so a login through this service gets an
      access token that authenticates it (see AuthenticationRoundTrip). */
  lemma LoadedAuthoritiesJoinable(service: CustomUserDetailsService, username: string)
    requires service.LoadUserByUsername(username).Success?
    ensures JoinableAuthorities(service.LoadUserByUsername(username).value.authorities)
  {
    var d := service.LoadUserByUsername(username).value;
    assert d.authorities[0] == RoleName(USER);
  }
}
