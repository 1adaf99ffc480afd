/**
 * Percent-decoding as the `urlencoding` crate's `decode` does it, followed by the
 * UTF-8 check that turns its octets into a Rust `String`; and, as its partner, the
 * percent-encoding the browser applies (`encodeURIComponent`) when it writes the cookie.
 */
module UrlEncoding {
  import opened Wrappers
  import opened Text

  predicate IsHexDigit(b: byte) {
    ('0' as byte <= b <= '9' as byte) || ('a' as byte <= b <= 'f' as byte) || ('A' as byte <= b <= 'F' as byte)
  }

  function HexValue(b: byte): (v: int)
    requires IsHexDigit(b)
    ensures 0 <= v < 16
  {
    if b <= '9' as byte then (b - '0' as byte) as int
    else if b <= 'F' as byte then (b - 'A' as byte) as int + 10
    else (b - 'a' as byte) as int + 10
  }

  /**
   * `urlencoding::decode_binary`: every `%` followed by two hex digits becomes the
   * octet they spell; any other `%` is kept as it is; `+` is not touched.
   */
  function DecodeBinary(data: seq<byte>): seq<byte>
    decreases |data|
  {
    if |data| == 0 then []
    else if data[0] == '%' as byte && |data| >= 3 && IsHexDigit(data[1]) && IsHexDigit(data[2]) then
      [(16 * HexValue(data[1]) + HexValue(data[2])) as byte] + DecodeBinary(data[3..])
    else
      [data[0]] + DecodeBinary(data[1..])
  }

  predicate IsContinuation(b: byte) {
    0x80 <= b <= 0xBF
  }

  /** Well-formed UTF-8, octet ranges as in table 3-7 of the Unicode Standard. */
  predicate IsUtf8(s: seq<byte>)
    decreases |s|
  {
    if |s| == 0 then true
    else if s[0] < 0x80 then IsUtf8(s[1..])
    else if 0xC2 <= s[0] <= 0xDF then
      |s| >= 2 && IsContinuation(s[1]) && IsUtf8(s[2..])
    else if s[0] == 0xE0 then
      |s| >= 3 && 0xA0 <= s[1] <= 0xBF && IsContinuation(s[2]) && IsUtf8(s[3..])
    else if (0xE1 <= s[0] <= 0xEC) || (0xEE <= s[0] <= 0xEF) then
      |s| >= 3 && IsContinuation(s[1]) && IsContinuation(s[2]) && IsUtf8(s[3..])
    else if s[0] == 0xED then
      |s| >= 3 && 0x80 <= s[1] <= 0x9F && IsContinuation(s[2]) && IsUtf8(s[3..])
    else if s[0] == 0xF0 then
      |s| >= 4 && 0x90 <= s[1] <= 0xBF && IsContinuation(s[2]) && IsContinuation(s[3]) && IsUtf8(s[4..])
    else if 0xF1 <= s[0] <= 0xF3 then
      |s| >= 4 && IsContinuation(s[1]) && IsContinuation(s[2]) && IsContinuation(s[3]) && IsUtf8(s[4..])
    else if s[0] == 0xF4 then
      |s| >= 4 && 0x80 <= s[1] <= 0x8F && IsContinuation(s[2]) && IsContinuation(s[3]) && IsUtf8(s[4..])
    else
      false
  }

  /**
   * `urlencoding::decode`: the decoded octets when they form valid UTF-8 (the crate's
   * only failure), and nothing otherwise.
   */
  function Decode(data: seq<byte>): (r: Option<seq<byte>>)
    ensures r.Some? <==> IsUtf8(DecodeBinary(data))
    ensures r.Some? ==> r.value == DecodeBinary(data)
  {
    var d := DecodeBinary(data);
    if IsUtf8(d) then Some(d) else None
  }

  /** Octets `encodeURIComponent` leaves as they are. */
  predicate IsUnreserved(b: byte) {
    || ('A' as byte <= b <= 'Z' as byte) || ('a' as byte <= b <= 'z' as byte) || ('0' as byte <= b <= '9' as byte)
    || b == '-' as byte || b == '_' as byte || b == '.' as byte || b == '!' as byte
    || b == '~' as byte || b == '*' as byte || b == '\'' as byte || b == '(' as byte || b == ')' as byte
  }

  /** Upper-case hex digit for a nibble. */
  function HexDigit(v: int): (b: byte)
    requires 0 <= v < 16
    ensures IsHexDigit(b) && HexValue(b) == v
  {
    if v < 10 then (v + '0' as int) as byte else (v - 10 + 'A' as int) as byte
  }

  /** `encodeURIComponent` over the UTF-8 octets of a string. */
  function Encode(data: seq<byte>): (e: seq<byte>)
    decreases |data|
  {
    if |data| == 0 then []
    else
      var b := data[0];
      (if IsUnreserved(b) then [b] else ['%' as byte, HexDigit(b as int / 16), HexDigit(b as int % 16)])
        + Encode(data[1..])
  }

  /** Decoding undoes encoding, octet for octet. */
  lemma {:induction false} DecodeEncode(data: seq<byte>)
    ensures DecodeBinary(Encode(data)) == data
    decreases |data|
  {
    if |data| > 0 {
      var b := data[0];
      var tail := Encode(data[1..]);
      DecodeEncode(data[1..]);
      if IsUnreserved(b) {
        assert Encode(data) == [b] + tail;
        assert ([b] + tail)[1..] == tail;
      } else {
        var hi, lo := HexDigit(b as int / 16), HexDigit(b as int % 16);
        assert Encode(data) == ['%' as byte, hi, lo] + tail;
        assert (['%' as byte, hi, lo] + tail)[3..] == tail;
        assert (16 * HexValue(hi) + HexValue(lo)) as byte == b;
      }
      assert data == [b] + data[1..];
    }
  }

  /**
   * Every encoded octet is unreserved or `%`: printable ASCII with no `;`, `,`, `"`, blank
   * or control octet in it.
   */
  lemma {:induction false} EncodeIsSafe(data: seq<byte>)
    ensures forall i :: 0 <= i < |Encode(data)| ==> IsUnreserved(Encode(data)[i]) || Encode(data)[i] == '%' as byte
    decreases |data|
  {
    if |data| > 0 {
      EncodeIsSafe(data[1..]);
    }
  }

  /**
   * A value whose decoded octets start with a continuation octet (`%80` to `%BF`, or such
   * an octet sent raw) is not UTF-8, so the decoding fails.
   */
  lemma StrayContinuationFails(data: seq<byte>)
    requires |DecodeBinary(data)| > 0 && IsContinuation(DecodeBinary(data)[0])
    ensures Decode(data) == None
  {
  }
}
