/** The shared-secret gate that runs before every request (`check_password`,
    registered with `before_request`). */
module AuthGate {
  import opened Outcomes

  /** The view functions whose requests must carry the password. */
  const GatedEndpoints: seq<string> :=
    ["list_directory", "create_file", "write_file", "read_file", "delete_path"]

  /** The gate's verdict for one request: `None` lets the request through to
      its handler, `Some(Unauthorized)` answers it with 401.  `endpoint` is
      the name of the matched view function (absent when routing matched
      nothing) and `passwd` the first `passwd` query argument. */
  function CheckPassword(verb: string, endpoint: Option<string>, passwd: Option<string>,
                         password: string): (rejection: Option<Error>)
    ensures rejection.Some? ==> rejection.value == Unauthorized
    ensures rejection.Some? ==> verb != "OPTIONS" && passwd != Some(password)
    ensures (rejection.None? && verb != "OPTIONS" && endpoint.Some? && endpoint.value in GatedEndpoints)
              ==> passwd == Some(password)
  {
    if verb == "OPTIONS" then None
    else if endpoint.Some? && endpoint.value in GatedEndpoints
            && (passwd.None? || passwd.value != password) then Some(Unauthorized)
    else None
  }

  /** For every gated endpoint and every method other than OPTIONS, the
      request passes exactly when it carries the configured password. */
  lemma OnlyThePasswordOpensTheGate(verb: string, endpoint: string, passwd: Option<string>,
                                    password: string)
    requires verb != "OPTIONS" && endpoint in GatedEndpoints
    ensures CheckPassword(verb, Some(endpoint), passwd, password).None? <==> passwd == Some(password)
  {
  }

  /** Preflight requests are never asked for the password. */
  lemma PreflightBypassesTheGate(endpoint: Option<string>, passwd: Option<string>, password: string)
    ensures CheckPassword("OPTIONS", endpoint, passwd, password).None?
  {
  }
}
