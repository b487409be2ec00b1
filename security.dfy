/**
 * Spring Security's view of an authenticated caller and the per-request slot
 * that holds it.
 */
module Security {
  import opened Wrappers

  /** An Authentication: its name, its credentials (the token string when it
      was rebuilt from a JWT, absent once erased) and its granted authorities,
      in order, as their `getAuthority()` strings. */
  datatype Authentication = Authentication(name: string, credentials: Option<string>, authorities: seq<string>)

  /** The SecurityContext of one request: empty when the request starts, and
      holding at most one Authentication. */
  class SecurityContext {
    var authentication: Option<Authentication>

    constructor ()
      ensures authentication == None
    {
      authentication := None;
    }

    method SetAuthentication(a: Authentication)
      modifies this
      ensures authentication == Some(a)
    {
      authentication := Some(a);
    }
  }
}
