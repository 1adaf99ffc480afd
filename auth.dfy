/**
 * The HTTP Basic authentication gate (src/libs/auth.rs): every request passes when
 * authentication is switched off; otherwise only the configured user with the
 * configured password does.
 */
module Auth {
  import opened Wrappers

  /** The `[auth]` section of the configuration. */
  datatype AuthConfig = AuthConfig(enabled: bool, username: string, password: string)

  /** What the `Authorization: Basic` header carried: a user id and, perhaps, a password. */
  datatype Credentials = Credentials(userId: string, password: Option<string>)

  /**
   * Why a request is turned away: a 401 with a `WWW-Authenticate: Basic` challenge, or a
   * 401 carrying only a message.
   */
  datatype AuthError = BasicChallenge | Unauthorized(message: string)

  /** The error half of the validator's result: the error and the request handed back. */
  datatype Rejection<R> = Rejection(error: AuthError, req: R)

  /** The credentials name the configured user with the configured password. */
  predicate Matches(config: AuthConfig, credentials: Credentials) {
    credentials.userId == config.username && credentials.password == Some(config.password)
  }

  /** `validator`: the request itself on success, or a challenge together with the request. */
  function Validator<R>(req: R, config: AuthConfig, credentials: Credentials): (r: Result<R, Rejection<R>>)
    ensures r.Ok? <==> !config.enabled || Matches(config, credentials)
    ensures r.Ok? ==> r.value == req
    ensures r.Err? ==> r.error == Rejection(BasicChallenge, req)
  {
    if !config.enabled then Ok(req)
    else
      match (credentials.userId, credentials.password)
      case (user, Some(pass)) =>
        if user == config.username && pass == config.password then Ok(req)
        else Err(Rejection(BasicChallenge, req))
      case _ => Err(Rejection(BasicChallenge, req))
  }

  /** With authentication switched off every request passes, whatever it presents. */
  lemma DisabledAcceptsAll<R>(req: R, config: AuthConfig, credentials: Credentials)
    requires !config.enabled
    ensures Validator(req, config, credentials) == Ok(req)
  {
  }

  /** A missing password is turned away even when the configured password is empty. */
  lemma MissingPasswordRejected<R>(req: R, config: AuthConfig, userId: string)
    requires config.enabled
    ensures Validator(req, config, Credentials(userId, None)) == Err(Rejection(BasicChallenge, req))
  {
  }

  /**
   * With authentication on, exactly one credential pair passes: the configured user
   * with the configured password.
   */
  lemma OnlyConfiguredPairPasses<R>(req: R, config: AuthConfig, credentials: Credentials)
    requires config.enabled
    ensures Validator(req, config, credentials).Ok? <==>
      credentials == Credentials(config.username, Some(config.password))
  {
  }
}
