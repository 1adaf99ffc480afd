/**
 * Page and static-file handlers (src/libs/handlers.rs): the decision between the
 * screen-measuring bootstrap document and the rendered page, the choice of translation
 * table, and the static-file content type.
 */
module Handlers {
  import opened Wrappers
  import opened Text
  import opened Http
  import Client
  import Translations
  import UrlEncoding

  /** What a response carries. The bootstrap document's text only matters in a browser. */
  datatype Body = BootstrapDocument | Html(text: string) | Octets(data: seq<byte>) | Empty

  datatype Response = Response(status: nat, contentType: Option<string>, body: Body)

  /** An actix error: the status it answers with and its message. */
  datatype HttpError = HttpError(status: nat, message: string)

  /** What a page template sees. */
  datatype Context = Context(currentYear: int, client: Client.ClientInfo, t: map<string, string>)

  /** Tera's `render`: a template name and a context to the page text or an error message. */
  type Renderer = (string, Context) -> Result<string, string>

  /** The `200 text/html` answer that measures the screen, stores the cookie and reloads. */
  const Bootstrap := Response(200, Some("text/html"), BootstrapDocument)

  /**
   * The guard of `render_with_client_detection`: a non-bot request without geometry. A
   * first visit, with no `Cookie` header, is bootstrapped exactly when it is not a bot.
   */
  function NeedsBootstrap(req: Request, json: Client.JsonParser): (r: bool)
    ensures r ==> !Client.IsBotRequest(req.userAgent)
    ensures req.cookie.None? ==> (r <==> !Client.IsBotRequest(req.userAgent))
  {
    !Client.IsBotRequest(req.userAgent) && Client.ScreenInfoOf(req.cookie, json).None?
  }

  /**
   * The table for `t`: the language's strings, else `en-EN`'s, else none. A non-empty
   * table is always one of those two loaded tables.
   */
  function PageTable(translations: Translations.Translations, language: string): (r: map<string, string>)
    ensures r != map[] ==>
      (language in translations.strings && r == translations.strings[language])
      || (Client.EnEN in translations.strings && r == translations.strings[Client.EnEN])
  {
    Translations.GetLocaleWithFallback(translations, language, Client.EnEN)
  }

  /** The context a page is rendered with. */
  function PageContext(req: Request, json: Client.JsonParser, translations: Translations.Translations, year: int): Context
  {
    var client := Client.ClientInfoOf(req, json);
    Context(year, client, PageTable(translations, client.language))
  }

  /** `render_with_client_detection`. */
  function RenderWithClientDetection(
    req: Request, json: Client.JsonParser, translations: Translations.Translations,
    render: Renderer, year: int, template: string): (r: Result<Response, HttpError>)
    ensures r == Ok(Bootstrap) <==> NeedsBootstrap(req, json)
    ensures r.Ok? && r.value != Bootstrap ==>
      r.value.status == 200 && r.value.contentType == Some("text/html") && r.value.body.Html?
  {
    if NeedsBootstrap(req, json) then
      Ok(Bootstrap)
    else
      match render(template, PageContext(req, json, translations, year))
      case Err(e) => Err(HttpError(500, e))
      case Ok(text) => Ok(Response(200, Some("text/html"), Html(text)))
  }

  // ---------------------------------------------------------------------------
  // Properties of the page handler

  /** A bot is always served the page, with or without a geometry cookie. */
  lemma BotsNeverBootstrap(req: Request, json: Client.JsonParser, translations: Translations.Translations,
    render: Renderer, year: int, template: string)
    requires Client.IsBotRequest(req.userAgent)
    ensures RenderWithClientDetection(req, json, translations, render, year, template) != Ok(Bootstrap)
  {
  }

  /**
   * The bootstrap path neither detects nor renders: its answer is the same whatever the
   * templates, translations, year and template name.
   */
  lemma BootstrapIgnoresPage(req: Request, json: Client.JsonParser,
    t1: Translations.Translations, render1: Renderer, year1: int, template1: string,
    t2: Translations.Translations, render2: Renderer, year2: int, template2: string)
    requires NeedsBootstrap(req, json)
    ensures RenderWithClientDetection(req, json, t1, render1, year1, template1)
      == RenderWithClientDetection(req, json, t2, render2, year2, template2)
  {
  }

  /**
   * The handshake completes: once the browser has stored the cookie the bootstrap
   * document writes for a payload that parses, and sends that pair as the whole `Cookie`
   * header, the same browser is served the page.
   */
  lemma HandshakeCompletes(req: Request, payload: seq<byte>, json: Client.JsonParser, info: Client.ScreenInfo,
    translations: Translations.Translations, render: Renderer, year: int, template: string)
    requires req.cookie == Some(Client.ScreenInfoCookie(payload))
    requires UrlEncoding.IsUtf8(payload) && json(payload) == Some(info)
    ensures RenderWithClientDetection(req, json, translations, render, year, template) != Ok(Bootstrap)
    ensures PageContext(req, json, translations, year).client.viewportWidth == Some(info.viewportWidth)
  {
    Client.CookieRoundTrip(payload, json, info);
  }

  /**
   * A `Cookie` header with one octet outside tab and printable ASCII keeps a browser on
   * the bootstrap document, even when the header also holds a valid `screen_info` pair:
   * the reload that follows carries the same header and is answered the same way.
   */
  lemma NonVisibleCookieBootstraps(req: Request, json: Client.JsonParser, k: nat,
    translations: Translations.Translations, render: Renderer, year: int, template: string)
    requires !Client.IsBotRequest(req.userAgent)
    requires req.cookie.Some? && k < |req.cookie.value| && !IsVisibleAscii(req.cookie.value[k])
    ensures RenderWithClientDetection(req, json, translations, render, year, template) == Ok(Bootstrap)
  {
    Client.NonVisibleOctetHidesGeometry(req.cookie.value, json, k);
  }

  /** Off the bootstrap path, a template error is a 500 and a rendered page is served as is. */
  lemma RenderOutcome(req: Request, json: Client.JsonParser, translations: Translations.Translations,
    render: Renderer, year: int, template: string)
    requires !NeedsBootstrap(req, json)
    ensures var out := render(template, PageContext(req, json, translations, year));
      var r := RenderWithClientDetection(req, json, translations, render, year, template);
      (out.Err? <==> r.Err?)
      && (out.Err? ==> r.error == HttpError(500, out.error))
      && (out.Ok? ==> r.value == Response(200, Some("text/html"), Html(out.value)))
  {
  }

  /**
   * The table a page sees is the detected language's when loaded, else `en-EN`'s, and
   * is empty only when neither was loaded.
   */
  lemma PageTableFallback(translations: Translations.Translations, language: string)
    requires language == Client.DeDE || language == Client.EnEN
    ensures language in translations.strings ==> PageTable(translations, language) == translations.strings[language]
    ensures language !in translations.strings && Client.EnEN in translations.strings ==>
      PageTable(translations, language) == translations.strings[Client.EnEN]
    ensures language !in translations.strings && Client.EnEN !in translations.strings ==>
      PageTable(translations, language) == map[]
    ensures language == Client.EnEN ==>
      PageTable(translations, language) == if Client.EnEN in translations.strings then translations.strings[Client.EnEN] else map[]
  {
  }

  // ---------------------------------------------------------------------------
  // static_files

  /** The last component of a `/`-separated path, empty and `.` components skipped. */
  function LastComponent(parts: seq<string>): Option<string>
  {
    if |parts| == 0 then None
    else if parts[|parts| - 1] == "" || parts[|parts| - 1] == "." then LastComponent(parts[..|parts| - 1])
    else Some(parts[|parts| - 1])
  }

  /** `Path::file_name`: the last component, unless it is `..`. */
  function FileName(path: string): (r: Option<string>)
    ensures r.Some? ==> r.value != "" && r.value != "." && r.value != ".." && '/' !in r.value
  {
    var last := LastComponent(Split(path, '/'));
    if last.None? || last.value == ".." then None
    else
      SplitPieces(path, '/');
      LastComponentIsPiece(Split(path, '/'));
      last
  }

  lemma {:induction false} LastComponentIsPiece(parts: seq<string>)
    ensures LastComponent(parts).Some? ==>
      LastComponent(parts).value in parts && LastComponent(parts).value != "" && LastComponent(parts).value != "."
    decreases |parts|
  {
    if |parts| > 0 {
      LastComponentIsPiece(parts[..|parts| - 1]);
    }
  }

  /**
   * `Path::extension`: the text after the last `.` of the file name, when there is a dot
   * with something before it.
   */
  function Extension(path: string): (r: Option<string>)
    ensures r.Some? ==> '.' !in r.value && '/' !in r.value
  {
    match FileName(path)
    case None => None
    case Some(name) =>
      var k := LastIndexOf(name, '.');
      if k <= 0 then None
      else
        var ext := name[k + 1..];
        assert forall j :: 0 <= j < |ext| ==> ext[j] == name[k + 1 + j];
        Some(ext)
  }

  const OctetStream := "application/octet-stream"

  /**
   * The `match` of `static_files`: it agrees with the table of known extensions, and
   * anything else (an unknown or differently cased extension, or none) gets
   * `application/octet-stream`.
   */
  function ContentType(ext: Option<string>): (r: string)
    ensures ext.Some? && ext.value in KnownTypes ==> r == KnownTypes[ext.value]
    ensures r == OctetStream <==> ext.None? || ext.value !in KnownTypes
  {
    match ext
    case Some("css") => "text/css"
    case Some("js") => "application/javascript"
    case Some("png") => "image/png"
    case Some("jpg") => "image/jpeg"
    case Some("jpeg") => "image/jpeg"
    case Some("gif") => "image/gif"
    case Some("svg") => "image/svg+xml"
    case Some("ico") => "image/x-icon"
    case Some("woff") => "font/woff"
    case Some("woff2") => "font/woff2"
    case Some("ttf") => "font/ttf"
    case Some("otf") => "font/otf"
    case _ => OctetStream
  }

  /** The file system as far as `std::fs::read` sees it: the octets at a path, or a failure. */
  type FileReader = string -> Option<seq<byte>>

  /**
   * `static_files`: reads `static/` + path; 404 with no body when that fails, otherwise
   * 200 with the file's octets and the type of that path's extension.
   */
  function StaticFiles(path: string, read: FileReader): (r: Result<Response, HttpError>)
    ensures r.Ok?
    ensures read("static/" + path).None? ==> r.value == Response(404, None, Empty)
    ensures read("static/" + path).Some? ==>
      r.value.status == 200 && r.value.body == Octets(read("static/" + path).value)
    ensures read("static/" + path).Some? ==>
      r.value.contentType == Some(ContentType(Extension("static/" + path)))
  {
    var filePath := "static/" + path;
    var contentType := ContentType(Extension(filePath));
    match read(filePath)
    case Some(contents) => Ok(Response(200, Some(contentType), Octets(contents)))
    case None => Ok(Response(404, None, Empty))
  }

  // ---------------------------------------------------------------------------
  // Properties of static_files

  /** Reference table of the extensions `static_files` knows. */
  const KnownTypes: map<string, string> := map[
    "css" := "text/css", "js" := "application/javascript", "png" := "image/png",
    "jpg" := "image/jpeg", "jpeg" := "image/jpeg", "gif" := "image/gif",
    "svg" := "image/svg+xml", "ico" := "image/x-icon", "woff" := "font/woff",
    "woff2" := "font/woff2", "ttf" := "font/ttf", "otf" := "font/otf"]

  /** `jpg` and `jpeg` are the only two extensions that share a type. */
  lemma ContentTypeDistinct(a: string, b: string)
    requires a in KnownTypes && b in KnownTypes && a != b
    requires ContentType(Some(a)) == ContentType(Some(b))
    ensures (a == "jpg" && b == "jpeg") || (a == "jpeg" && b == "jpg")
  {
  }

  /** The file name of `dir/name` is `name`. */
  lemma FileNameOf(dir: string, name: string)
    requires name != "" && name != "." && name != ".." && '/' !in name
    ensures FileName(dir + "/" + name) == Some(name)
  {
    SplitAppend(dir, '/', name);
    assert dir + "/" + name == dir + ['/'] + name;
    SplitWithoutSeparator(name, '/');
  }

  /**
   * The extension of `dir/stem.ext` is `ext` for any non-empty stem, except that `dir/..`
   * (stem `.`, empty extension) has no file name at all.
   */
  lemma ExtensionOf(dir: string, stem: string, ext: string)
    requires stem != "" && (stem != "." || ext != "") && '/' !in stem && '/' !in ext && '.' !in ext
    ensures Extension(dir + "/" + stem + "." + ext) == Some(ext)
  {
    var name := stem + "." + ext;
    assert name[|stem|] == '.';
    assert name != ".." by {
      if |name| == 2 {
        assert |stem| == 1 && name[0] == stem[0] && stem == [stem[0]];
      }
    }
    FileNameOf(dir, name);
    assert dir + "/" + stem + "." + ext == dir + "/" + name;
    assert forall j :: |stem| < j < |name| ==> name[j] == ext[j - |stem| - 1];
    assert LastIndexOf(name, '.') == |stem|;
    assert name[|stem| + 1..] == ext;
  }

  /** A file served from a directory under `static/` gets the type of its extension. */
  lemma StaticFileType(dir: string, stem: string, ext: string, read: FileReader)
    requires stem != "" && (stem != "." || ext != "") && '/' !in stem && '/' !in ext && '.' !in ext
    requires read("static/" + dir + "/" + stem + "." + ext).Some?
    ensures StaticFiles(dir + "/" + stem + "." + ext, read).value.contentType == Some(ContentType(Some(ext)))
  {
    assert "static/" + (dir + "/" + stem + "." + ext) == ("static/" + dir) + "/" + stem + "." + ext;
    ExtensionOf("static/" + dir, stem, ext);
  }

  /** A file served from `static/` itself, such as `favicon.ico`, gets the type of its extension. */
  lemma StaticTopLevelFileType(stem: string, ext: string, read: FileReader)
    requires stem != "" && (stem != "." || ext != "") && '/' !in stem && '/' !in ext && '.' !in ext
    requires read("static/" + stem + "." + ext).Some?
    ensures StaticFiles(stem + "." + ext, read).value.contentType == Some(ContentType(Some(ext)))
  {
    var path := stem + "." + ext;
    assert "static/" == "static" + "/";
    assert "static/" + path == "static" + "/" + stem + "." + ext;
    assert "static/" + path == "static/" + stem + "." + ext;
    ExtensionOf("static", stem, ext);
  }

  /** Only the file at `static/` + path is read: readers that agree there give the same answer. */
  lemma StaticFilesReadsTarget(path: string, read1: FileReader, read2: FileReader)
    requires read1("static/" + path) == read2("static/" + path)
    ensures StaticFiles(path, read1) == StaticFiles(path, read2)
  {
  }
}
