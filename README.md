# vvoss-web: client detection, page decision, translations and Basic auth

A Dafny model of the request-time logic of the vvoss-web actix-web site.

- **Client detection** (`src/libs/client.rs`, module `Client`). It reads screen geometry from
  the `screen_info` cookie, the page language from `Accept-Language`, a device type and CSS
  breakpoint from geometry and `User-Agent`, and tests whether the request comes from a bot.
- **Page handler** (`src/libs/handlers.rs`, module `Handlers`). A non-bot request without
  geometry gets the bootstrap document; that document measures the screen, stores the cookie
  and reloads. Every other request is rendered with a translation table. The table is the
  detected language's, else `en-EN`'s, else empty. `static_files` serves `static/<path>` with a
  content type taken from the extension.
- **Translation catalog** (`src/libs/translations.rs`, module `Translations`). It loads
  `key;text;locale` lines into a locale → key → text map, skipping the header line, and offers
  lookup and locale fallback.
- **Basic auth gate** (`src/libs/auth.rs`, module `Auth`).
- **The single-file server** (`src/main.rs`, module `Server`).
  - Its detection functions (lines 64–246) are the same text as `client.rs`, so they are the
    `Client` members.
  - Its `static_files` (lines 309–334) is the same text as `handlers.rs:53-78`, so it is
    `Handlers.StaticFiles`.
  - `Server` models only what differs:
    - a `ClientInfo` without `lang`;
    - a validator with no `enabled` switch, which answers with a plain 401 message;
    - a catalog load that panics when the file cannot be read.

Supporting modules model the pieces of Rust and its crates that the logic depends on:
- `Text`: `str::split`, `lines`, `trim`, `starts_with`, `contains`, ASCII lower-casing and
  `as_bytes`.
- `Http`: the request as raw header octets, and `HeaderValue::to_str`.
- `UrlEncoding`: `urlencoding::decode`, including its UTF-8 check, and `encodeURIComponent`,
  which the bootstrap script uses to write the cookie.

External collaborators are parameters:
- `serde_json`: `Client.JsonParser`.
- Tera's `render`: `Handlers.Renderer` / `Server.Renderer`.
- The clock's year: an `int`.
- File reads: `Handlers.FileReader`, and a `Result` for the catalog text.

What the code does, and does not do, in places where a reader might expect otherwise:
- The code has no `lang` query or cookie override, no enabled-locale list and no `Set-Cookie`
  written by the server.
- The language is a case-sensitive prefix test of each `Accept-Language` tag against `de` and
  `en`, mapped to `de-DE` and `en-EN`, with `en-EN` as the default. `ClientInfo.lang` is always
  empty.
- With geometry, a device type of `mobile` does not imply a viewport of at most 559. A viewport
  in 960..1920 falls through to the `User-Agent` scan, which can also answer `mobile` or
  `tablet`.
  - `Client.DeviceTypeThresholds` states the thresholds in the direction that holds.
  - `Client.DeviceTypeOf` states the one if-and-only-if that holds: `wide` exactly
    when the viewport is over 1920.
- `to_str` is applied to the whole `Cookie` header. One octet outside tab and printable ASCII,
  in any cookie, hides the geometry. A non-bot browser sending such a header is then answered
  with the bootstrap document on every request, and its reloads never reach the page
  (`Handlers.NonVisibleCookieBootstraps`). Section 4.1.1 of RFC 6265 keeps cookie values to
  printable ASCII, so a conforming browser and site never send such a header.

## Model

| member | source | states |
|---|---|---|
| Http.ToStr | src/libs/client.rs:30 | `to_str` succeeds exactly when every octet is a tab or in 32..126; then the text has the header's characters, one per octet, all ASCII |
| UrlEncoding.Decode | src/libs/client.rs:35 | `urlencoding::decode` succeeds exactly when the percent-decoded octets are well-formed UTF-8, and then yields those octets |
| UrlEncoding.DecodeEncode | src/libs/client.rs:194 | percent-decoding undoes `encodeURIComponent`, octet for octet |
| UrlEncoding.EncodeIsSafe | src/libs/client.rs:194 | every octet of the encoded cookie value is unreserved or `%`, so it holds no `;` and no blank |
| UrlEncoding.StrayContinuationFails | src/libs/client.rs:35 | any value whose decoded octets start with a continuation octet (`%80` to `%BF`) is rejected |
| Client.PairScreenInfo | src/libs/client.rs:31-41 | a cookie piece yields geometry only when, trimmed, it starts with `screen_info=` and the value after it percent-decodes to UTF-8 |
| Client.FirstScreenInfo | src/libs/client.rs:31-44 | the first piece that yields geometry decides; its properties are `Client.FirstScreenInfoSkipsFailures` and `Client.FirstScreenInfoNone` |
| Client.ScreenInfoOf | src/libs/client.rs:28-45 | geometry comes only from a `Cookie` header whose every octet is visible ASCII |
| Client.ParseScreenInfo | src/libs/client.rs:28-45 | the cookie loop with early return computes `ScreenInfoOf`: nothing for a header that is missing or holds an octet outside tab and printable ASCII, otherwise the first `;`-piece that, trimmed, starts with `screen_info=` and decodes and parses |
| Client.FirstScreenInfoSkipsFailures | src/libs/client.rs:31-41 | a piece that fails (wrong name, bad decoding, bad JSON) is skipped and later pieces are still tried; the first piece that yields geometry decides |
| Client.FirstScreenInfoNone | src/libs/client.rs:31-44 | no geometry comes out exactly when no cookie piece yields any: every failure collapses to `None` |
| Client.ScreenInfoCookieText | src/libs/client.rs:194 | the cookie the bootstrap script writes passes `to_str`, holds no `;`, starts with `screen_info=`, has no blank at either end, and carries the encoded JSON after the prefix |
| Client.CookieRoundTrip | src/libs/client.rs:28-45 | a `Cookie` header holding the `screen_info` pair the bootstrap script writes for UTF-8 JSON text yields exactly the geometry that text parses to |
| Client.CookieAfterOther | src/libs/client.rs:28-45 | the round trip also holds when another cookie (visible text, no `;`, yielding nothing) and `; ` come before the pair |
| Client.NonVisibleOctetHidesGeometry | src/libs/client.rs:30 | one octet outside tab and printable ASCII anywhere in the `Cookie` header means no geometry, whatever pairs the header holds |
| Client.ScanAcceptLanguage | src/libs/client.rs:52-68 | the loop with `break` computes `LanguageOf`: `en-EN` without a usable header, else the first entry whose tag (before `;`, trimmed) starts with `de` or `en` |
| Client.FirstLanguage | src/libs/client.rs:56-66 | the entry scan settles on `de-DE` or `en-EN`; which one is `Client.FirstLanguageIsFirstMatch` |
| Client.LanguageOf | src/libs/client.rs:52-68 | whatever the header, the language is `de-DE` or `en-EN` |
| Client.FirstLanguageIsFirstMatch | src/libs/client.rs:56-66 | `de-DE` exactly when some tag starts with `de` and no earlier tag starts with `en`; `en-EN` in every other case |
| Client.ClassifyUserAgent | src/libs/client.rs:100-138 | the `User-Agent` scan never answers `wide`; its order is `Client.ClassifyIsFirstMatch` and `Client.UserAgentFirstMatch` |
| Client.UserAgentDeviceType | src/libs/client.rs:97-138 | `desktop` without a `User-Agent`, and never `wide` |
| Client.ClassifyIsFirstMatch | src/libs/client.rs:97-138 | the hand-written `User-Agent` if-chain equals the first-match reading of the rule table bot, mobile, tablet, tv, console, else desktop |
| Client.UserAgentFirstMatch | src/libs/client.rs:97-138 | group k is the answer exactly when it matches and no earlier group does; `desktop` exactly when no group matches |
| Client.MobileBeforeTablet | src/libs/client.rs:108-121 | a non-bot `User-Agent` naming both `mobile` and `tablet` is classified `mobile` |
| Client.IsBotRequest | src/libs/client.rs:167-175 | a request is a bot only when it has a `User-Agent` that `to_str` accepts; the rest is `Client.IsBotIffBotDevice` |
| Client.IsBotIffBotDevice | src/libs/client.rs:167-175 | `is_bot_request` is true exactly when the device scan answers `bot`, although only the scan lists `googlebot` |
| Client.DeviceTypeThresholds | src/libs/client.rs:86-94 | with geometry, a viewport ≤ 559 gives mobile, 560..959 tablet, > 1920 wide; in 960..1920 and without geometry the `User-Agent` answer is used |
| Client.DeviceTypeOf | src/libs/client.rs:84-139 | the device type is `wide` exactly when geometry reports a viewport over 1920; the thresholds are `Client.DeviceTypeThresholds` |
| Client.BreakpointOf | src/libs/client.rs:142-153 | with geometry, phone exactly for a viewport ≤ 559, tablet for 560..959, screen for 960..1259, wide for ≥ 1260 |
| Client.BreakpointSources | src/libs/client.rs:142-164 | with geometry the breakpoint ignores the `User-Agent`; without it, it is the breakpoint of the `User-Agent` answer |
| Client.DeviceBreakpoint | src/libs/client.rs:155-163 | `phone` exactly for `mobile`, `tablet` exactly for `tablet` |
| Client.NamesDistinct | src/libs/client.rs:13-14 | distinct device types and breakpoints reach the templates as distinct strings |
| Client.BreakpointMonotone | src/libs/client.rs:143-153 | a wider viewport never gives a narrower breakpoint |
| Client.BreakpointMatchesDeviceType | src/libs/client.rs:155-163 | where geometry decides the device type, or there is no geometry, the breakpoint is the device type's mapped breakpoint (mobile→phone, tablet→tablet, wide/tv/console→wide, others→screen) |
| Client.ClientInfoOf | src/libs/client.rs:70-80 | the language is `de-DE` or `en-EN`; the screen, viewport and `dpr` fields are all present or all absent, together with the geometry; `lang` is empty |
| Client.DetectClientInfo | src/libs/client.rs:48-81 | `detect_client_info` (geometry once, the language loop, both classifiers) builds `ClientInfoOf` |
| Translations.Record | src/libs/translations.rs:17-22 | a loaded entry has no `;` in its fields and, written back as `key;text;locale`, is the line it came from |
| Translations.Apply | src/libs/translations.rs:17-25 | loading a line never removes a locale or a key |
| Translations.LoadAll | src/libs/translations.rs:14-27 | every locale in the map has at least one key |
| Translations.Parse | src/libs/translations.rs:14-15 | a text of at most one line, the header, loads nothing |
| Translations.Insert | src/libs/translations.rs:23-25 | the locale is added if new, its table gets the key set to the text, and every other locale's table is unchanged |
| Translations.ApplySetsOneEntry | src/libs/translations.rs:19-25 | a loaded line `key;text;locale` makes `get(locale, key)` the text and leaves every other (locale, key) lookup as it was |
| Translations.RecordShape | src/libs/translations.rs:17-18 | a line is loaded exactly when it has two `;` (three fields); any other line changes nothing |
| Translations.RecordEntryLine | src/libs/translations.rs:17-22 | a line written as `key;text;locale` from fields without `;` reads back as those three fields |
| Translations.HeaderSkipped | src/libs/translations.rs:14-15 | the first line is never loaded, even when well-formed: the rest loads as if it stood alone |
| Translations.LoadAllLookup | src/libs/translations.rs:14-27 | the loaded map agrees with a reference reading: (locale, key) is present exactly when some line sets it, with the text of the last such line |
| Translations.LoadAllLocales | src/libs/translations.rs:23-25 | a locale is in the map exactly when some loaded line names it |
| Translations.ParseCsv | src/libs/translations.rs:12-29 | the `enumerate` loop that skips index 0 and updates the map in place builds `Parse` of the text |
| Translations.FromCsv | src/libs/translations.rs:10-30 | a read failure is passed on as the error; otherwise the result is the parsed catalog |
| Translations.Get | src/libs/translations.rs:33-37 | `get` is `Some` exactly when both the locale and the key are present, and then the stored text |
| Translations.GetParsed | src/libs/translations.rs:33-37 | on a parsed catalog, `get` is the reference reading (last line wins) of every line after the header, and nothing for an empty text |
| Translations.GetLocaleWithFallback | src/libs/translations.rs:40-45 | the locale's table if present, else the fallback's, else an empty map |
| Translations.FallbackEmpty | src/libs/translations.rs:40-45 | on a parsed catalog the result is empty exactly when neither the locale nor the fallback was loaded |
| Handlers.NeedsBootstrap | src/libs/handlers.rs:27 | only a non-bot is bootstrapped; a first visit without a `Cookie` header is bootstrapped exactly when it is not a bot |
| Handlers.PageTable | src/libs/handlers.rs:39-42 | a non-empty table is the detected language's or `en-EN`'s loaded table |
| Handlers.RenderWithClientDetection | src/libs/handlers.rs:20-50 | the bootstrap document is the answer exactly when the request is not a bot and has no geometry; any other success is a 200 `text/html` rendered page |
| Handlers.BotsNeverBootstrap | src/libs/handlers.rs:26-31 | a bot never gets the bootstrap document, with or without a geometry cookie |
| Handlers.BootstrapIgnoresPage | src/libs/handlers.rs:27-33 | on the bootstrap path the answer does not depend on the templates, translations, year or template name: nothing is detected or rendered |
| Handlers.HandshakeCompletes | src/libs/handlers.rs:27-31 | a request carrying the cookie the bootstrap document writes is rendered, and its context carries the measured viewport |
| Handlers.NonVisibleCookieBootstraps | src/libs/handlers.rs:27-31 | a non-bot whose `Cookie` header has one octet outside tab and printable ASCII gets the bootstrap document, even with a valid `screen_info` pair |
| Handlers.RenderOutcome | src/libs/handlers.rs:45-49 | a template error becomes a 500 with its message; a rendered page is served as 200 `text/html` |
| Handlers.PageTableFallback | src/libs/handlers.rs:39-42 | the table is the detected language's if loaded, else `en-EN`'s, else empty |
| Handlers.FileName | src/libs/handlers.rs:57 | `Path::file_name`: when present, a non-empty last component that is neither `.` nor `..` and holds no `/` |
| Handlers.FileNameOf | src/libs/handlers.rs:57 | the file name of `dir/name` is `name` |
| Handlers.Extension | src/libs/handlers.rs:57 | `Path::extension`: when present, text after the file name's last `.`, holding no `.` and no `/` |
| Handlers.ExtensionOf | src/libs/handlers.rs:57 | the extension of `dir/stem.ext` is `ext` for any non-empty stem, `dir/..` aside |
| Handlers.ContentType | src/libs/handlers.rs:57-70 | the match agrees with the extension table; `application/octet-stream` exactly for a missing, unknown or differently cased extension |
| Handlers.ContentTypeDistinct | src/libs/handlers.rs:61 | `jpg` and `jpeg` are the only two known extensions that share a type |
| Handlers.StaticFiles | src/libs/handlers.rs:53-78 | never an error; a failed read of `static/` + path is a bodiless 404; a successful one is a 200 with the file's octets and the content type of that path's extension |
| Handlers.StaticFileType | src/libs/handlers.rs:54-75 | a served `dir/stem.ext` carries the content type of `ext` |
| Handlers.StaticTopLevelFileType | src/libs/handlers.rs:54-75 | a served `stem.ext` directly under `static/`, such as `favicon.ico`, carries the content type of `ext` |
| Handlers.StaticFilesReadsTarget | src/libs/handlers.rs:54-72 | only the file at `static/` + path is read: readers that agree there give the same answer |
| Auth.Validator | src/libs/auth.rs:8-29 | accepts exactly when authentication is off or the user id and the present password match the configuration; the request comes back unchanged either way, with a Basic challenge on rejection |
| Auth.DisabledAcceptsAll | src/libs/auth.rs:16-18 | with authentication off every request passes, whatever its credentials |
| Auth.MissingPasswordRejected | src/libs/auth.rs:20-27 | with authentication on, a missing password is rejected even when the configured password is empty |
| Auth.OnlyConfiguredPairPasses | src/libs/auth.rs:20-23 | with authentication on, exactly the configured user with the configured password passes |
| Server.ClientInfoOf | src/main.rs:109-118 | main.rs's record equals the library's field for field, less `lang`; its language is `de-DE` or `en-EN` |
| Server.DetectClientInfo | src/main.rs:84-119 | main.rs's `detect_client_info` builds `Server.ClientInfoOf` |
| Server.RenderWithClientDetection | src/main.rs:249-279 | the bootstrap document is the answer exactly when the request is not a bot and has no geometry |
| Server.RenderAgreesWithLibrary | src/main.rs:255-278 | main.rs's page handler answers as the library's, given templates that render the two contexts alike, and both use the same translation table |
| Server.Validator | src/main.rs:337-353 | accepts exactly when the user id and the present password match, with no `enabled` switch; rejection is 401 `Unauthorized` with the request |
| Server.ValidatorIsAlwaysEnabled | src/main.rs:344-352 | main.rs's validator accepts what the library's accepts with authentication on; with it off, the library's accepts requests that main.rs's rejects |
| Server.LoadTranslations | src/main.rs:355-377 | the catalog parsed exactly as `from_csv` does; a read failure is the panic, whose message is `Failed to read translations file: ` followed by the error's `Debug` text |

## Left out

- File reads, the clock, `serde_json` and Tera are parameters, not models. They are
  `Handlers.FileReader`, a `Result` for the catalog text, an `int` year, `Client.JsonParser` and
  the `Renderer` types. The JSON parser is given the decoded octets, which are UTF-8 by then.
- `dpr` is an `f32`. It is carried as its 32-bit pattern and never computed with.
- The bootstrap document's HTML and script text is an opaque body, `Handlers.BootstrapDocument`.
  Only the cookie its script writes is modelled, as `Client.ScreenInfoCookie`. The round trip
  is proved for a header holding that pair alone (`Client.CookieRoundTrip`) and for one
  other cookie in front of it (`Client.CookieAfterOther`). Longer headers are covered only
  piece by piece, by `Client.FirstScreenInfoSkipsFailures`.
- A header that occurs several times: `headers().get` sees the first one, and the model's
  request holds that one value per header.
- `to_lowercase` is modelled as ASCII lower-casing. It is only applied to text that `to_str`
  accepted, which is ASCII, so the two agree.
- Actix's percent-decoding of the `{filename}` path segment happens before `static_files` and
  is not modelled. `Handlers.StaticFiles` takes the decoded path.
- `Handlers.FileName` models Unix path semantics only. Windows prefixes are not modelled.
- `Auth.Validator` and `Server.Validator` take the configuration as a parameter. The `unwrap`
  on missing application data, which panics, is not modelled.
- `render_page`, the `page_handler!` macro and the `index`/`portfolio`/`impressum` handlers only
  forward to `render_with_client_detection` with a fixed template name. They are not modelled
  separately.
- Server start-up, configuration loading (`src/libs/config.rs`, `config.toml`), the Unix
  socket, logging and route wiring (src/main.rs:379-433) are process I/O and are not modelled.
- The error types of actix are reduced to their status and message (`Handlers.HttpError`,
  `Auth.AuthError`).
