/**
 * The single-file server (src/main.rs). Its detection functions are the same text as
 * src/libs/client.rs and are the Client module's members; what it does differently is
 * modelled here: a `ClientInfo` without `lang`, a validator with no `enabled` switch and
 * a plain 401 message, and a catalog load that panics when the file cannot be read.
 */
module Server {
  import opened Wrappers
  import opened Http
  import Client
  import Translations
  import Handlers
  import Auth

  /** `ClientInfo` of main.rs: the library's record without `lang`. */
  datatype ClientInfo = ClientInfo(
    language: string,
    screenWidth: Option<Client.u32>,
    screenHeight: Option<Client.u32>,
    viewportWidth: Option<Client.u32>,
    viewportHeight: Option<Client.u32>,
    dpr: Option<bv32>,
    deviceType: Client.DeviceType,
    breakpoint: Client.Breakpoint)

  /** The record main.rs's `detect_client_info` builds: the library's, field for field, less `lang`. */
  function ClientInfoOf(req: Request, json: Client.JsonParser): (c: ClientInfo)
    ensures var l := Client.ClientInfoOf(req, json);
      c.language == l.language && c.screenWidth == l.screenWidth && c.screenHeight == l.screenHeight
      && c.viewportWidth == l.viewportWidth && c.viewportHeight == l.viewportHeight && c.dpr == l.dpr
      && c.deviceType == l.deviceType && c.breakpoint == l.breakpoint
    ensures c.language == Client.DeDE || c.language == Client.EnEN
  {
    var screen := Client.ScreenInfoOf(req.cookie, json);
    ClientInfo(
      Client.LanguageOf(req.acceptLanguage),
      if screen.Some? then Some(screen.value.width) else None,
      if screen.Some? then Some(screen.value.height) else None,
      if screen.Some? then Some(screen.value.viewportWidth) else None,
      if screen.Some? then Some(screen.value.viewportHeight) else None,
      if screen.Some? then Some(screen.value.dpr) else None,
      Client.DeviceTypeOf(req.userAgent, screen),
      Client.BreakpointOf(req.userAgent, screen))
  }

  /** main.rs's `detect_client_info`: the same cookie parse and language loop as the library. */
  method DetectClientInfo(req: Request, json: Client.JsonParser) returns (info: ClientInfo)
    ensures info == ClientInfoOf(req, json)
  {
    var screenInfo := Client.ParseScreenInfo(req.cookie, json);
    var language := Client.ScanAcceptLanguage(req.acceptLanguage);
    info := ClientInfo(
      language,
      if screenInfo.Some? then Some(screenInfo.value.width) else None,
      if screenInfo.Some? then Some(screenInfo.value.height) else None,
      if screenInfo.Some? then Some(screenInfo.value.viewportWidth) else None,
      if screenInfo.Some? then Some(screenInfo.value.viewportHeight) else None,
      if screenInfo.Some? then Some(screenInfo.value.dpr) else None,
      Client.DeviceTypeOf(req.userAgent, screenInfo),
      Client.BreakpointOf(req.userAgent, screenInfo));
  }

  /** What a main.rs page template sees. */
  datatype Context = Context(currentYear: int, client: ClientInfo, t: map<string, string>)

  type Renderer = (string, Context) -> Result<string, string>

  /** The context main.rs renders a page with. */
  function PageContext(req: Request, json: Client.JsonParser, translations: Translations.Translations, year: int): Context
  {
    var client := ClientInfoOf(req, json);
    Context(year, client, Handlers.PageTable(translations, client.language))
  }

  /** main.rs's `render_with_client_detection`: the library handler's guard and fallback. */
  function RenderWithClientDetection(
    req: Request, json: Client.JsonParser, translations: Translations.Translations,
    render: Renderer, year: int, template: string): (r: Result<Handlers.Response, Handlers.HttpError>)
    ensures r == Ok(Handlers.Bootstrap) <==> Handlers.NeedsBootstrap(req, json)
  {
    if Handlers.NeedsBootstrap(req, json) then
      Ok(Handlers.Bootstrap)
    else
      match render(template, PageContext(req, json, translations, year))
      case Err(e) => Err(Handlers.HttpError(500, e))
      case Ok(text) => Ok(Handlers.Response(200, Some("text/html"), Handlers.Html(text)))
  }

  /**
   * The two page handlers answer alike: given templates that produce the same outcome
   * for the two contexts (which differ only in `lang`), the responses are equal, and
   * both contexts carry the same translation table.
   */
  lemma RenderAgreesWithLibrary(req: Request, json: Client.JsonParser, translations: Translations.Translations,
    render: Renderer, libraryRender: Handlers.Renderer, year: int, template: string)
    requires render(template, PageContext(req, json, translations, year))
      == libraryRender(template, Handlers.PageContext(req, json, translations, year))
    ensures RenderWithClientDetection(req, json, translations, render, year, template)
      == Handlers.RenderWithClientDetection(req, json, translations, libraryRender, year, template)
    ensures PageContext(req, json, translations, year).t == Handlers.PageContext(req, json, translations, year).t
  {
  }

  /** main.rs's `validator`: no `enabled` switch, and a plain `401 Unauthorized` on failure. */
  function Validator<R>(req: R, config: Auth.AuthConfig, credentials: Auth.Credentials): (r: Result<R, Auth.Rejection<R>>)
    ensures r.Ok? <==> Auth.Matches(config, credentials)
    ensures r.Ok? ==> r.value == req
    ensures r.Err? ==> r.error == Auth.Rejection(Auth.Unauthorized("Unauthorized"), req)
  {
    if credentials.userId == config.username && credentials.password.Some?
      && credentials.password.value == config.password then
      Ok(req)
    else
      Err(Auth.Rejection(Auth.Unauthorized("Unauthorized"), req))
  }

  /**
   * main.rs's validator accepts exactly what the library's accepts with authentication
   * switched on, whatever the configured switch says; only the rejection differs.
   */
  lemma ValidatorIsAlwaysEnabled<R>(req: R, config: Auth.AuthConfig, credentials: Auth.Credentials)
    ensures Validator(req, config, credentials).Ok?
      <==> Auth.Validator(req, config.(enabled := true), credentials).Ok?
    ensures !config.enabled && !Auth.Matches(config, credentials) ==>
      Validator(req, config, credentials).Err? && Auth.Validator(req, config, credentials).Ok?
  {
  }

  /** The text `load_translations` hands to `expect`. */
  const ReadPanic := "Failed to read translations file"

  /**
   * `load_translations`: the catalog parsed from `templates/translations/strings.csv`.
   * A read failure panics; the panic is the `Err` outcome, carrying the message `expect`
   * builds: the text above, `: `, and the `Debug` form of the `io::Error`.
   */
  method LoadTranslations(read: Result<string, Translations.IoError>) returns (r: Result<Translations.Translations, string>)
    ensures read.Err? ==> r == Err(ReadPanic + ": " + read.error.debug)
    ensures read.Ok? ==> r == Ok(Translations.Parse(read.value))
  {
    if read.Err? {
      return Err(ReadPanic + ": " + read.error.debug);
    }
    var t := Translations.ParseCsv(read.value);
    return Ok(t);
  }
}
