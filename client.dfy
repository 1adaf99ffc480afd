/**
 * Client detection (src/libs/client.rs): screen geometry from the `screen_info` cookie,
 * the page language from `Accept-Language`, the device type and CSS breakpoint from
 * geometry and `User-Agent`, and the bot test.
 */
module Client {
  import opened Wrappers
  import opened Text
  import opened Http
  import UrlEncoding

  newtype u32 = x: int | 0 <= x < 0x1_0000_0000

  /**
   * The geometry the bootstrap document measures and stores in the `screen_info` cookie.
   * `dpr` is an `f32`; it is carried, never computed with, so it is kept as its
   * IEEE-754 bit pattern.
   */
  datatype ScreenInfo = ScreenInfo(
    width: u32,
    height: u32,
    dpr: bv32,
    viewportWidth: u32,
    viewportHeight: u32)

  /**
   * `serde_json::from_str::<ScreenInfo>` applied to the decoded cookie value (given as
   * its UTF-8 octets): the record, or nothing when the text is not such a JSON object.
   */
  type JsonParser = seq<byte> -> Option<ScreenInfo>

  datatype DeviceType = Mobile | Tablet | Desktop | Wide | Tv | Console | Bot
  {
    /** The string the templates see. */
    function Name(): string {
      match this
      case Mobile => "mobile"
      case Tablet => "tablet"
      case Desktop => "desktop"
      case Wide => "wide"
      case Tv => "tv"
      case Console => "console"
      case Bot => "bot"
    }
  }

  datatype Breakpoint = Phone | Tablet | Screen | Wide
  {
    /** The string the templates see. */
    function Name(): string {
      match this
      case Phone => "phone"
      case Tablet => "tablet"
      case Screen => "screen"
      case Wide => "wide"
    }

    /** Position in the order phone < tablet < screen < wide. */
    function Rank(): nat {
      match this
      case Phone => 0
      case Tablet => 1
      case Screen => 2
      case Wide => 3
    }
  }

  /** Distinct device types and distinct breakpoints reach the templates as distinct strings. */
  lemma NamesDistinct(d1: DeviceType, d2: DeviceType, b1: Breakpoint, b2: Breakpoint)
    ensures d1.Name() == d2.Name() ==> d1 == d2
    ensures b1.Name() == b2.Name() ==> b1 == b2
  {
  }

  /** What the page templates receive as `client`. */
  datatype ClientInfo = ClientInfo(
    language: string,
    screenWidth: Option<u32>,
    screenHeight: Option<u32>,
    viewportWidth: Option<u32>,
    viewportHeight: Option<u32>,
    dpr: Option<bv32>,
    deviceType: DeviceType,
    breakpoint: Breakpoint,
    lang: string)

  // ---------------------------------------------------------------------------
  // parse_screen_info

  const ScreenInfoPrefix: string := "screen_info="

  /**
   * One `;`-separated cookie piece: the geometry it carries when, once trimmed, it is a
   * `screen_info=` pair whose value percent-decodes to UTF-8 that parses.
   */
  function PairScreenInfo(part: string, json: JsonParser): (r: Option<ScreenInfo>)
    ensures r.Some? ==> StartsWith(Trim(part), ScreenInfoPrefix)
    ensures r.Some? ==> UrlEncoding.IsUtf8(UrlEncoding.DecodeBinary(Utf8Bytes(Trim(part)[12..])))
  {
    var trimmed := Trim(part);
    if StartsWith(trimmed, ScreenInfoPrefix) then
      match UrlEncoding.Decode(Utf8Bytes(trimmed[12..]))
      case None => None
      case Some(decoded) => json(decoded)
    else
      None
  }

  /**
   * The first cookie piece that yields geometry; `FirstScreenInfoSkipsFailures` and
   * `FirstScreenInfoNone` state what that means.
   */
  function FirstScreenInfo(parts: seq<string>, json: JsonParser): Option<ScreenInfo>
  {
    if |parts| == 0 then None
    else
      match PairScreenInfo(parts[0], json)
      case Some(info) => Some(info)
      case None => FirstScreenInfo(parts[1..], json)
  }

  /**
   * What `parse_screen_info` computes from the `Cookie` header. Geometry comes only from a
   * header that `to_str` accepts, that is, one whose every octet is visible ASCII.
   */
  function ScreenInfoOf(cookie: Option<HeaderValue>, json: JsonParser): (r: Option<ScreenInfo>)
    ensures r.Some? ==> cookie.Some? && forall i :: 0 <= i < |cookie.value| ==> IsVisibleAscii(cookie.value[i])
  {
    match cookie
    case None => None
    case Some(h) =>
      match ToStr(h)
      case None => None
      case Some(s) => FirstScreenInfo(Split(s, ';'), json)
  }

  /** `parse_screen_info`: scans the cookie pieces in order and returns at the first hit. */
  method ParseScreenInfo(cookie: Option<HeaderValue>, json: JsonParser) returns (r: Option<ScreenInfo>)
    ensures r == ScreenInfoOf(cookie, json)
  {
    if cookie.Some? {
      var cookiesStr := ToStr(cookie.value);
      if cookiesStr.Some? {
        var parts := Split(cookiesStr.value, ';');
        for i := 0 to |parts|
          invariant FirstScreenInfo(parts[i..], json) == FirstScreenInfo(parts, json)
        {
          var trimmed := Trim(parts[i]);
          if StartsWith(trimmed, ScreenInfoPrefix) {
            var value := trimmed[12..];
            var decoded := UrlEncoding.Decode(Utf8Bytes(value));
            if decoded.Some? {
              var screenInfo := json(decoded.value);
              if screenInfo.Some? {
                return screenInfo;
              }
            }
          }
          assert parts[i..][1..] == parts[i + 1..];
        }
      }
    }
    return None;
  }

  /**
   * Pieces that fail are skipped: when every piece before `k` fails, the result is
   * piece `k`'s geometry if it has one, and otherwise that of the pieces after it.
   */
  lemma {:induction false} FirstScreenInfoSkipsFailures(parts: seq<string>, json: JsonParser, k: nat)
    requires k < |parts|
    requires forall j :: 0 <= j < k ==> PairScreenInfo(parts[j], json).None?
    ensures PairScreenInfo(parts[k], json).Some? ==> FirstScreenInfo(parts, json) == PairScreenInfo(parts[k], json)
    ensures PairScreenInfo(parts[k], json).None? ==> FirstScreenInfo(parts, json) == FirstScreenInfo(parts[k + 1..], json)
  {
    if k > 0 {
      FirstScreenInfoSkipsFailures(parts[1..], json, k - 1);
      assert parts[1..][k - 1] == parts[k];
      assert parts[1..][k..] == parts[k + 1..];
    }
  }

  /** No geometry comes out exactly when no piece yields any. */
  lemma {:induction false} FirstScreenInfoNone(parts: seq<string>, json: JsonParser)
    ensures FirstScreenInfo(parts, json).None? <==> forall j :: 0 <= j < |parts| ==> PairScreenInfo(parts[j], json).None?
  {
    if |parts| > 0 {
      FirstScreenInfoNone(parts[1..], json);
      assert forall j :: 1 <= j < |parts| ==> parts[1..][j - 1] == parts[j];
    }
  }

  /** The octets of a `Cookie` header holding exactly one `screen_info` pair. */
  function ScreenInfoCookie(payload: seq<byte>): HeaderValue
  {
    Utf8Bytes(ScreenInfoPrefix) + UrlEncoding.Encode(payload)
  }

  /**
   * The cookie the bootstrap document writes reads back, after `to_str`, as
   * `screen_info=` followed by the encoded text, with no `;` and no blank at either end.
   */
  lemma ScreenInfoCookieText(payload: seq<byte>) returns (s: string)
    ensures ToStr(ScreenInfoCookie(payload)) == Some(s)
    ensures ';' !in s
    ensures |s| >= 12 && s[..12] == ScreenInfoPrefix
    ensures !IsWhitespace(s[0]) && !IsWhitespace(s[|s| - 1])
    ensures Utf8Bytes(s[12..]) == UrlEncoding.Encode(payload)
  {
    var enc := UrlEncoding.Encode(payload);
    UrlEncoding.EncodeIsSafe(payload);
    PrefixOctets();
    var h := ScreenInfoCookie(payload);
    assert h == PrefixOctetsValue + enc;
    s := CookieTextOf(enc);
  }

  const PrefixOctetsValue: seq<byte> := [115, 99, 114, 101, 101, 110, 95, 105, 110, 102, 111, 61]

  /** `screen_info=` as octets. */
  lemma PrefixOctets()
    ensures Utf8Bytes(ScreenInfoPrefix) == PrefixOctetsValue
  {
  }

  /** The text `to_str` makes of the prefix octets followed by encoded octets. */
  lemma CookieTextOf(enc: seq<byte>) returns (s: string)
    requires forall i :: 0 <= i < |enc| ==> UrlEncoding.IsUnreserved(enc[i]) || enc[i] == '%' as byte
    ensures ToStr(PrefixOctetsValue + enc) == Some(s)
    ensures ';' !in s
    ensures |s| >= 12 && s[..12] == ScreenInfoPrefix
    ensures !IsWhitespace(s[0]) && !IsWhitespace(s[|s| - 1])
    ensures Utf8Bytes(s[12..]) == enc
  {
    var h := PrefixOctetsValue + enc;
    assert forall i :: 12 <= i < |h| ==> h[i] == enc[i - 12];
    assert forall i :: 0 <= i < |h| ==> IsVisibleAscii(h[i]) && h[i] != ';' as byte;
    s := ToStr(h).value;
    assert |s| == |h|;
    assert forall i :: 0 <= i < |s| ==> s[i] != ';';
    PrefixText(s[..12]);
    assert !IsWhitespace(s[|s| - 1]) by {
      if |enc| > 0 {
        assert s[|s| - 1] as int == enc[|enc| - 1] as int;
      }
    }
    TailText(enc, s[12..]);
  }

  /** Twelve characters with the prefix's codes are the prefix. */
  lemma PrefixText(s: string)
    requires |s| == 12
    requires forall i :: 0 <= i < 12 ==> s[i] as int == PrefixOctetsValue[i] as int
    ensures s == ScreenInfoPrefix
  {
  }

  /** ASCII text with the encoded octets' codes encodes back to them. */
  lemma TailText(enc: seq<byte>, value: string)
    requires forall i :: 0 <= i < |enc| ==> enc[i] < 0x80
    requires |value| == |enc| && forall i :: 0 <= i < |value| ==> value[i] as int == enc[i] as int
    ensures Utf8Bytes(value) == enc
  {
    assert IsAscii(value);
    AsciiUtf8Bytes(value);
  }

  /**
   * The handshake closes: when the browser stores the JSON text `payload` the way the
   * bootstrap document does (percent-encoded under `screen_info=`), the next request
   * yields the geometry that text parses to.
   */
  lemma CookieRoundTrip(payload: seq<byte>, json: JsonParser, info: ScreenInfo)
    requires UrlEncoding.IsUtf8(payload)
    requires json(payload) == Some(info)
    ensures ScreenInfoOf(Some(ScreenInfoCookie(payload)), json) == Some(info)
  {
    var s := ScreenInfoCookieText(payload);
    SplitWithoutSeparator(s, ';');
    CookiePairYields(s, payload, json, info);
    assert FirstScreenInfo([s], json) == Some(info);
  }

  /** A trimmed `screen_info=` pair holding the encoded payload yields what the payload parses to. */
  lemma CookiePairYields(s: string, payload: seq<byte>, json: JsonParser, info: ScreenInfo)
    requires |s| >= 12 && s[..12] == ScreenInfoPrefix
    requires !IsWhitespace(s[0]) && !IsWhitespace(s[|s| - 1])
    requires Utf8Bytes(s[12..]) == UrlEncoding.Encode(payload)
    requires UrlEncoding.IsUtf8(payload)
    requires json(payload) == Some(info)
    ensures PairScreenInfo(s, json) == Some(info)
  {
    TrimUnchanged(s);
    UrlEncoding.DecodeEncode(payload);
    assert UrlEncoding.Decode(Utf8Bytes(s[12..])) == Some(payload);
  }

  /**
   * Other cookies in front do not hide the pair: when the header holds a piece of visible
   * text without `;` that yields no geometry, then `; `, then the `screen_info` pair the
   * bootstrap document writes, the geometry still comes out.
   */
  lemma CookieAfterOther(other: string, payload: seq<byte>, json: JsonParser, info: ScreenInfo)
    requires IsVisibleText(other) && ';' !in other
    requires PairScreenInfo(other, json).None?
    requires UrlEncoding.IsUtf8(payload)
    requires json(payload) == Some(info)
    ensures ScreenInfoOf(Some(Utf8Bytes(other + "; ") + ScreenInfoCookie(payload)), json) == Some(info)
  {
    var s := ScreenInfoCookieText(payload);
    HeaderAfterOther(other, ScreenInfoCookie(payload), s);
    PiecesAfterOther(other, s);
    CookiePairYields(s, payload, json, info);
    TrimBlankPrefix(s);
    assert PairScreenInfo(" " + s, json) == Some(info);
    assert FirstScreenInfo([other, " " + s], json) == Some(info);
  }

  /** Visible text and `; ` in front of a header that `to_str` accepts are read back as they are. */
  lemma HeaderAfterOther(other: string, cookie: HeaderValue, s: string)
    requires IsVisibleText(other)
    requires ToStr(cookie) == Some(s)
    ensures ToStr(Utf8Bytes(other + "; ") + cookie) == Some(other + "; " + s)
  {
    var lead := other + "; ";
    assert IsVisibleText(lead);
    VisibleTextToStr(lead);
    ToStrAppend(Utf8Bytes(lead), cookie);
  }

  /** `other; s` splits into the other cookie and the pair after a blank. */
  lemma PiecesAfterOther(other: string, s: string)
    requires ';' !in other && ';' !in s
    ensures Split(other + "; " + s, ';') == [other, " " + s]
  {
    assert other + "; " + s == other + [';'] + (" " + s);
    SplitCons(other, ';', " " + s);
    assert ';' !in " " + s;
    SplitWithoutSeparator(" " + s, ';');
  }

  /**
   * One octet outside tab and printable ASCII anywhere in the `Cookie` header makes
   * `to_str` fail for the whole header, so no geometry comes out, whatever pairs it holds.
   */
  lemma NonVisibleOctetHidesGeometry(cookie: HeaderValue, json: JsonParser, k: nat)
    requires k < |cookie| && !IsVisibleAscii(cookie[k])
    ensures ScreenInfoOf(Some(cookie), json) == None
  {
  }

  // ---------------------------------------------------------------------------
  // detect_client_info: the Accept-Language scan

  const DeDE: string := "de-DE"
  const EnEN: string := "en-EN"

  /** The tag of one comma-separated `Accept-Language` entry: the text before any `;`, trimmed. */
  function LanguageTag(entry: string): string {
    Trim(Split(entry, ';')[0])
  }

  /** The language the first `de…` or `en…` tag selects; `en-EN` when none does. */
  function FirstLanguage(entries: seq<string>): (r: string)
    ensures r == DeDE || r == EnEN
  {
    if |entries| == 0 then EnEN
    else
      var lang := LanguageTag(entries[0]);
      if StartsWith(lang, "de") then DeDE
      else if StartsWith(lang, "en") then EnEN
      else FirstLanguage(entries[1..])
  }

  /** The language `detect_client_info` settles on for an `Accept-Language` header. */
  function LanguageOf(acceptLanguage: Option<HeaderValue>): (r: string)
    ensures r == DeDE || r == EnEN
  {
    match acceptLanguage
    case None => EnEN
    case Some(h) =>
      match ToStr(h)
      case None => EnEN
      case Some(s) => FirstLanguage(Split(s, ','))
  }

  /**
   * The language loop of `detect_client_info`: starts from `en-EN` and stops at the
   * first entry whose tag starts with `de` or `en`.
   */
  method ScanAcceptLanguage(acceptLanguage: Option<HeaderValue>) returns (language: string)
    ensures language == LanguageOf(acceptLanguage)
  {
    language := EnEN;
    if acceptLanguage.Some? {
      var langStr := ToStr(acceptLanguage.value);
      if langStr.Some? {
        var entries := Split(langStr.value, ',');
        var i := 0;
        while i < |entries|
          invariant 0 <= i <= |entries|
          invariant language == EnEN
          invariant FirstLanguage(entries[i..]) == FirstLanguage(entries)
        {
          var lang := Trim(Split(entries[i], ';')[0]);
          if StartsWith(lang, "de") {
            language := DeDE;
            break;
          } else if StartsWith(lang, "en") {
            language := EnEN;
            break;
          }
          assert entries[i..][1..] == entries[i + 1..];
          i := i + 1;
        }
      }
    }
  }

  /**
   * `de-DE` comes out exactly when some tag starts with `de` and no tag before it
   * starts with `en`; in every other case the answer is `en-EN`.
   */
  lemma {:induction false} FirstLanguageIsFirstMatch(entries: seq<string>)
    ensures FirstLanguage(entries) == DeDE <==>
      exists k :: 0 <= k < |entries| && StartsWith(LanguageTag(entries[k]), "de")
        && forall j :: 0 <= j < k ==> !StartsWith(LanguageTag(entries[j]), "en")
    ensures FirstLanguage(entries) != DeDE ==> FirstLanguage(entries) == EnEN
  {
    if |entries| > 0 {
      var rest := entries[1..];
      FirstLanguageIsFirstMatch(rest);
      var lang := LanguageTag(entries[0]);
      if StartsWith(lang, "de") {
        assert StartsWith(LanguageTag(entries[0]), "de");
      } else if StartsWith(lang, "en") {
        assert FirstLanguage(entries) == EnEN;
        forall k | 0 < k < |entries| && StartsWith(LanguageTag(entries[k]), "de")
          ensures exists j :: 0 <= j < k && StartsWith(LanguageTag(entries[j]), "en")
        {
          assert StartsWith(LanguageTag(entries[0]), "en");
        }
      } else {
        assert FirstLanguage(entries) == FirstLanguage(rest);
        if FirstLanguage(rest) == DeDE {
          var k :| 0 <= k < |rest| && StartsWith(LanguageTag(rest[k]), "de")
            && forall j :: 0 <= j < k ==> !StartsWith(LanguageTag(rest[j]), "en");
          assert entries[k + 1] == rest[k];
          forall j | 0 <= j < k + 1 ensures !StartsWith(LanguageTag(entries[j]), "en") {
            if j > 0 {
              assert entries[j] == rest[j - 1];
            }
          }
        } else {
          forall k | 0 <= k < |entries| && StartsWith(LanguageTag(entries[k]), "de")
            ensures exists j :: 0 <= j < k && StartsWith(LanguageTag(entries[j]), "en")
          {
            assert k > 0;
            assert entries[k] == rest[k - 1];
            var j :| 0 <= j < k - 1 && StartsWith(LanguageTag(rest[j]), "en");
            assert entries[j + 1] == rest[j];
          }
        }
      }
    }
  }

  // ---------------------------------------------------------------------------
  // detect_device_type

  /** The `User-Agent` test of `detect_device_type`, on the lower-cased header. */
  function ClassifyUserAgent(lower: string): (r: DeviceType)
    ensures r != DeviceType.Wide
  {
    if Contains(lower, "bot") || Contains(lower, "crawler") || Contains(lower, "spider")
      || Contains(lower, "googlebot") then
      Bot
    else if Contains(lower, "mobile") || Contains(lower, "android") || Contains(lower, "iphone")
      || Contains(lower, "windows phone") || Contains(lower, "blackberry") then
      DeviceType.Mobile
    else if Contains(lower, "ipad") || Contains(lower, "tablet") || Contains(lower, "kindle")
      || Contains(lower, "silk") then
      DeviceType.Tablet
    else if Contains(lower, "smart-tv") || Contains(lower, "smarttv") || Contains(lower, "googletv")
      || Contains(lower, "appletv") then
      Tv
    else if Contains(lower, "playstation") || Contains(lower, "xbox") || Contains(lower, "nintendo") then
      Console
    else
      Desktop
  }

  /**
   * The device type the `User-Agent` header alone gives; `desktop` when it is missing or
   * holds an octet outside tab and printable ASCII.
   */
  function UserAgentDeviceType(userAgent: Option<HeaderValue>): (r: DeviceType)
    ensures r != DeviceType.Wide
    ensures userAgent.None? ==> r == Desktop
  {
    match userAgent
    case None => Desktop
    case Some(h) =>
      match ToStr(h)
      case None => Desktop
      case Some(s) => ClassifyUserAgent(AsciiLower(s))
  }

  /**
   * `detect_device_type`: viewport thresholds first, then the `User-Agent` scan. `wide`
   * is a type only geometry gives: the scan never yields it.
   */
  function DeviceTypeOf(userAgent: Option<HeaderValue>, screen: Option<ScreenInfo>): (r: DeviceType)
    ensures r == DeviceType.Wide <==> screen.Some? && screen.value.viewportWidth > 1920
  {
    if screen.Some? && screen.value.viewportWidth <= 559 then DeviceType.Mobile
    else if screen.Some? && screen.value.viewportWidth <= 959 then DeviceType.Tablet
    else if screen.Some? && screen.value.viewportWidth > 1920 then DeviceType.Wide
    else UserAgentDeviceType(userAgent)
  }

  /** One group of the `User-Agent` scan: any of these markers selects the device type. */
  datatype Rule = Rule(markers: seq<string>, device: DeviceType)

  const BotRule := Rule(["bot", "crawler", "spider", "googlebot"], Bot)
  const MobileRule := Rule(["mobile", "android", "iphone", "windows phone", "blackberry"], DeviceType.Mobile)
  const TabletRule := Rule(["ipad", "tablet", "kindle", "silk"], DeviceType.Tablet)
  const TvRule := Rule(["smart-tv", "smarttv", "googletv", "appletv"], Tv)
  const ConsoleRule := Rule(["playstation", "xbox", "nintendo"], Console)

  /** The scan as a table, in the order the groups are tried. */
  const UserAgentRules: seq<Rule> := [BotRule, MobileRule, TabletRule, TvRule, ConsoleRule]

  predicate MatchesAny(s: string, markers: seq<string>) {
    exists m | m in markers :: Contains(s, m)
  }

  /** First-match-wins over a rule table, `desktop` when no rule matches. */
  function FirstMatch(rules: seq<Rule>, s: string): DeviceType {
    if |rules| == 0 then Desktop
    else if MatchesAny(s, rules[0].markers) then rules[0].device
    else FirstMatch(rules[1..], s)
  }

  /** The hand-written scan is the first-match reading of the rule table. */
  lemma ClassifyIsFirstMatch(lower: string)
    ensures ClassifyUserAgent(lower) == FirstMatch(UserAgentRules, lower)
  {
    var r := UserAgentRules;
    assert r[1..] == [MobileRule, TabletRule, TvRule, ConsoleRule];
    assert r[1..][1..] == [TabletRule, TvRule, ConsoleRule];
    assert r[1..][1..][1..] == [TvRule, ConsoleRule];
    assert r[1..][1..][1..][1..] == [ConsoleRule];
    assert r[1..][1..][1..][1..][1..] == [];
    BotRuleMarkers(lower);
    MobileRuleMarkers(lower);
    TabletRuleMarkers(lower);
    TvRuleMarkers(lower);
    ConsoleRuleMarkers(lower);
    assert FirstMatch([ConsoleRule], lower) == if MatchesAny(lower, ConsoleRule.markers) then Console else Desktop;
    assert FirstMatch([TvRule, ConsoleRule], lower) ==
      if MatchesAny(lower, TvRule.markers) then Tv else FirstMatch([ConsoleRule], lower);
    assert FirstMatch([TabletRule, TvRule, ConsoleRule], lower) ==
      if MatchesAny(lower, TabletRule.markers) then DeviceType.Tablet else FirstMatch([TvRule, ConsoleRule], lower);
    assert FirstMatch(r[1..], lower) ==
      if MatchesAny(lower, MobileRule.markers) then DeviceType.Mobile else FirstMatch(r[1..][1..], lower);
  }

  /** Each table row tests the same markers as its branch of the if-chain. */
  lemma BotRuleMarkers(lower: string)
    ensures MatchesAny(lower, BotRule.markers) <==>
      Contains(lower, "bot") || Contains(lower, "crawler") || Contains(lower, "spider") || Contains(lower, "googlebot")
  {
  }

  lemma MobileRuleMarkers(lower: string)
    ensures MatchesAny(lower, MobileRule.markers) <==>
      Contains(lower, "mobile") || Contains(lower, "android") || Contains(lower, "iphone")
      || Contains(lower, "windows phone") || Contains(lower, "blackberry")
  {
  }

  lemma TabletRuleMarkers(lower: string)
    ensures MatchesAny(lower, TabletRule.markers) <==>
      Contains(lower, "ipad") || Contains(lower, "tablet") || Contains(lower, "kindle") || Contains(lower, "silk")
  {
  }

  lemma TvRuleMarkers(lower: string)
    ensures MatchesAny(lower, TvRule.markers) <==>
      Contains(lower, "smart-tv") || Contains(lower, "smarttv") || Contains(lower, "googletv") || Contains(lower, "appletv")
  {
  }

  lemma ConsoleRuleMarkers(lower: string)
    ensures MatchesAny(lower, ConsoleRule.markers) <==>
      Contains(lower, "playstation") || Contains(lower, "xbox") || Contains(lower, "nintendo")
  {
  }

  /** A rule decides when it matches and no earlier rule does. */
  lemma {:induction false} FirstMatchAt(rules: seq<Rule>, s: string, k: nat)
    requires k < |rules|
    requires forall j :: 0 <= j < k ==> !MatchesAny(s, rules[j].markers)
    requires MatchesAny(s, rules[k].markers)
    ensures FirstMatch(rules, s) == rules[k].device
  {
    if k > 0 {
      assert !MatchesAny(s, rules[0].markers);
      assert forall j :: 0 <= j < k - 1 ==> rules[1..][j] == rules[j + 1];
      FirstMatchAt(rules[1..], s, k - 1);
    }
  }

  /** With no rule matching, the answer is `desktop`. */
  lemma {:induction false} FirstMatchNone(rules: seq<Rule>, s: string)
    requires forall j :: 0 <= j < |rules| ==> !MatchesAny(s, rules[j].markers)
    ensures FirstMatch(rules, s) == Desktop
  {
    if |rules| > 0 {
      assert forall j :: 0 <= j < |rules| - 1 ==> rules[1..][j] == rules[j + 1];
      FirstMatchNone(rules[1..], s);
    }
  }

  /**
   * The `User-Agent` scan is first-match-wins in the order bot, mobile, tablet, tv,
   * console: group `k` decides exactly when it matches and no earlier group does, and
   * `desktop` comes out exactly when no group matches.
   */
  lemma UserAgentFirstMatch(lower: string, k: nat)
    requires k < |UserAgentRules|
    ensures ClassifyUserAgent(lower) == UserAgentRules[k].device <==>
      MatchesAny(lower, UserAgentRules[k].markers) && forall j :: 0 <= j < k ==> !MatchesAny(lower, UserAgentRules[j].markers)
    ensures ClassifyUserAgent(lower) == Desktop <==>
      forall j :: 0 <= j < |UserAgentRules| ==> !MatchesAny(lower, UserAgentRules[j].markers)
  {
    var rules := UserAgentRules;
    ClassifyIsFirstMatch(lower);
    // The groups' device types are pairwise distinct and none is desktop.
    assert forall i, j :: 0 <= i < j < |rules| ==> rules[i].device != rules[j].device;
    if MatchesAny(lower, rules[k].markers) && forall j :: 0 <= j < k ==> !MatchesAny(lower, rules[j].markers) {
      FirstMatchAt(rules, lower, k);
    }
    if forall j :: 0 <= j < |rules| ==> !MatchesAny(lower, rules[j].markers) {
      FirstMatchNone(rules, lower);
    } else {
      var m :| 0 <= m < |rules| && MatchesAny(lower, rules[m].markers);
      var f := FirstFiring(rules, lower, m);
    }
    if ClassifyUserAgent(lower) == rules[k].device {
      if forall j :: 0 <= j < |rules| ==> !MatchesAny(lower, rules[j].markers) {
        FirstMatchNone(rules, lower);
      } else {
        var m :| 0 <= m < |rules| && MatchesAny(lower, rules[m].markers);
        var f := FirstFiring(rules, lower, m);
        assert rules[f].device == rules[k].device;
      }
    }
  }

  /** Some rule matches: the earliest matching one decides. */
  lemma FirstFiring(rules: seq<Rule>, s: string, m: nat) returns (f: nat)
    requires m < |rules| && MatchesAny(s, rules[m].markers)
    ensures f <= m && MatchesAny(s, rules[f].markers)
    ensures forall j :: 0 <= j < f ==> !MatchesAny(s, rules[j].markers)
    ensures FirstMatch(rules, s) == rules[f].device
  {
    f := 0;
    while !MatchesAny(s, rules[f].markers)
      invariant f <= m
      invariant forall j :: 0 <= j < f ==> !MatchesAny(s, rules[j].markers)
      decreases m - f
    {
      f := f + 1;
    }
    FirstMatchAt(rules, s, f);
  }

  /** A `User-Agent` that names both a phone and a tablet is a phone: mobile is tried first. */
  lemma MobileBeforeTablet(lower: string)
    requires !Contains(lower, "bot") && !Contains(lower, "crawler") && !Contains(lower, "spider")
    requires Contains(lower, "mobile") && Contains(lower, "tablet")
    ensures ClassifyUserAgent(lower) == DeviceType.Mobile
  {
    if Contains(lower, "googlebot") {
      ContainsInner(lower, "googlebot", "bot", 6);
    }
  }

  // ---------------------------------------------------------------------------
  // is_bot_request

  /** `is_bot_request`: the lower-cased `User-Agent` mentions a bot, crawler or spider. */
  function IsBotRequest(userAgent: Option<HeaderValue>): (r: bool)
    ensures r ==> userAgent.Some? && ToStr(userAgent.value).Some?
  {
    match userAgent
    case None => false
    case Some(h) =>
      match ToStr(h)
      case None => false
      case Some(s) =>
        var lower := AsciiLower(s);
        Contains(lower, "bot") || Contains(lower, "crawler") || Contains(lower, "spider")
  }

  /**
   * The bot test and the bot group of the device scan agree on every header, although
   * only the latter lists `googlebot`: that marker contains `bot`.
   */
  lemma IsBotIffBotDevice(userAgent: Option<HeaderValue>)
    ensures IsBotRequest(userAgent) <==> UserAgentDeviceType(userAgent) == Bot
  {
    if userAgent.Some? && ToStr(userAgent.value).Some? {
      var lower := AsciiLower(ToStr(userAgent.value).value);
      if Contains(lower, "googlebot") {
        ContainsInner(lower, "googlebot", "bot", 6);
      }
    }
  }

  // ---------------------------------------------------------------------------
  // detect_breakpoint

  /** The fallback of `detect_breakpoint`: from device type to breakpoint. */
  function DeviceBreakpoint(d: DeviceType): (r: Breakpoint)
    ensures r == Phone <==> d == DeviceType.Mobile
    ensures r == Breakpoint.Tablet <==> d == DeviceType.Tablet
  {
    match d
    case Mobile => Phone
    case Tablet => Breakpoint.Tablet
    case Wide | Tv | Console => Breakpoint.Wide
    case Bot => Screen
    case Desktop => Screen
  }

  /**
   * `detect_breakpoint`: with geometry, four bands of the viewport width; without it,
   * the breakpoint of the device type.
   */
  function BreakpointOf(userAgent: Option<HeaderValue>, screen: Option<ScreenInfo>): (r: Breakpoint)
    ensures screen.Some? ==>
      (r == Phone <==> screen.value.viewportWidth <= 559)
      && (r == Breakpoint.Tablet <==> 560 <= screen.value.viewportWidth <= 959)
      && (r == Screen <==> 960 <= screen.value.viewportWidth <= 1259)
      && (r == Breakpoint.Wide <==> screen.value.viewportWidth >= 1260)
  {
    if screen.Some? then
      var width := screen.value.viewportWidth;
      if width <= 559 then Phone
      else if width <= 959 then Breakpoint.Tablet
      else if width <= 1259 then Screen
      else Breakpoint.Wide
    else
      DeviceBreakpoint(DeviceTypeOf(userAgent, screen))
  }

  /**
   * With geometry, the device type is decided by the viewport unless its width is in
   * 960..1920; in that band, and without geometry, it is the `User-Agent` answer.
   */
  lemma DeviceTypeThresholds(userAgent: Option<HeaderValue>, screen: Option<ScreenInfo>)
    ensures screen.Some? && screen.value.viewportWidth <= 559 ==> DeviceTypeOf(userAgent, screen) == DeviceType.Mobile
    ensures screen.Some? && 560 <= screen.value.viewportWidth <= 959 ==> DeviceTypeOf(userAgent, screen) == DeviceType.Tablet
    ensures screen.Some? && screen.value.viewportWidth > 1920 ==> DeviceTypeOf(userAgent, screen) == DeviceType.Wide
    ensures screen.None? || 960 <= screen.value.viewportWidth <= 1920 ==>
      DeviceTypeOf(userAgent, screen) == UserAgentDeviceType(userAgent)
  {
  }

  /**
   * With geometry the breakpoint depends on the viewport width alone; without geometry
   * it is the breakpoint of what the `User-Agent` scan says.
   */
  lemma BreakpointSources(userAgent: Option<HeaderValue>, other: Option<HeaderValue>, screen: Option<ScreenInfo>)
    ensures screen.Some? ==> BreakpointOf(userAgent, screen) == BreakpointOf(other, screen)
    ensures screen.None? ==> BreakpointOf(userAgent, screen) == DeviceBreakpoint(UserAgentDeviceType(userAgent))
  {
  }

  /** A wider viewport never gives a narrower breakpoint. */
  lemma BreakpointMonotone(userAgent: Option<HeaderValue>, a: ScreenInfo, b: ScreenInfo)
    requires a.viewportWidth <= b.viewportWidth
    ensures BreakpointOf(userAgent, Some(a)).Rank() <= BreakpointOf(userAgent, Some(b)).Rank()
  {
  }

  /**
   * The two classifiers agree wherever geometry decides the device type: there the
   * breakpoint is the device type's breakpoint.
   */
  lemma BreakpointMatchesDeviceType(userAgent: Option<HeaderValue>, screen: Option<ScreenInfo>)
    requires screen.None? || screen.value.viewportWidth <= 959 || screen.value.viewportWidth > 1920
    ensures BreakpointOf(userAgent, screen) == DeviceBreakpoint(DeviceTypeOf(userAgent, screen))
  {
  }

  // ---------------------------------------------------------------------------
  // detect_client_info

  /** The record `detect_client_info` builds. */
  function ClientInfoOf(req: Request, json: JsonParser): (c: ClientInfo)
    ensures c.language == DeDE || c.language == EnEN
    ensures c.screenWidth.Some? <==> ScreenInfoOf(req.cookie, json).Some?
    ensures c.screenHeight.Some? == c.screenWidth.Some? && c.viewportWidth.Some? == c.screenWidth.Some?
      && c.viewportHeight.Some? == c.screenWidth.Some? && c.dpr.Some? == c.screenWidth.Some?
    ensures c.lang == ""
  {
    var screen := ScreenInfoOf(req.cookie, json);
    ClientInfo(
      LanguageOf(req.acceptLanguage),
      if screen.Some? then Some(screen.value.width) else None,
      if screen.Some? then Some(screen.value.height) else None,
      if screen.Some? then Some(screen.value.viewportWidth) else None,
      if screen.Some? then Some(screen.value.viewportHeight) else None,
      if screen.Some? then Some(screen.value.dpr) else None,
      DeviceTypeOf(req.userAgent, screen),
      BreakpointOf(req.userAgent, screen),
      "")
  }

  /** `detect_client_info`: geometry once, the language scan, then both classifiers. */
  method DetectClientInfo(req: Request, json: JsonParser) returns (info: ClientInfo)
    ensures info == ClientInfoOf(req, json)
  {
    var screenInfo := ParseScreenInfo(req.cookie, json);
    var language := ScanAcceptLanguage(req.acceptLanguage);
    info := ClientInfo(
      language,
      if screenInfo.Some? then Some(screenInfo.value.width) else None,
      if screenInfo.Some? then Some(screenInfo.value.height) else None,
      if screenInfo.Some? then Some(screenInfo.value.viewportWidth) else None,
      if screenInfo.Some? then Some(screenInfo.value.viewportHeight) else None,
      if screenInfo.Some? then Some(screenInfo.value.dpr) else None,
      DeviceTypeOf(req.userAgent, screenInfo),
      BreakpointOf(req.userAgent, screenInfo),
      "");
  }
}
