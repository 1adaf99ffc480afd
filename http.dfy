/**
 * The slice of an actix-web request the detection layer reads: three optional header
 * values, each the raw octets of the first header of that name.
 */
module Http {
  import opened Wrappers
  import opened Text

  /** A header value as received: arbitrary octets. */
  type HeaderValue = seq<byte>

  datatype Request = Request(
    cookie: Option<HeaderValue>,
    acceptLanguage: Option<HeaderValue>,
    userAgent: Option<HeaderValue>)

  /** `HeaderValue::to_str` accepts tab and the printable ASCII range only. */
  predicate IsVisibleAscii(b: byte) {
    b == 9 || 32 <= b < 127
  }

  /**
   * `HeaderValue::to_str`: the value as text when every octet is visible ASCII, and
   * nothing otherwise.
   */
  function ToStr(h: HeaderValue): (r: Option<string>)
    ensures r.Some? <==> forall i :: 0 <= i < |h| ==> IsVisibleAscii(h[i])
    ensures r.Some? ==> |r.value| == |h| && forall i :: 0 <= i < |h| ==> r.value[i] as int == h[i] as int
    ensures r.Some? ==> IsAscii(r.value)
  {
    if forall i :: 0 <= i < |h| ==> IsVisibleAscii(h[i]) then
      var s := seq(|h|, i requires 0 <= i < |h| => (h[i] as int) as char);
      assert forall c :: c in s ==> c < '\U{80}';
      Some(s)
    else
      None
  }

  /** Text made of tab and printable ASCII: what `to_str` gives back. */
  predicate IsVisibleText(t: string) {
    forall i :: 0 <= i < |t| ==> t[i] == '\t' || (' ' <= t[i] <= '~')
  }

  /** Visible text, sent as its octets, reads back unchanged. */
  lemma VisibleTextToStr(t: string)
    requires IsVisibleText(t)
    ensures ToStr(Utf8Bytes(t)) == Some(t)
  {
    assert IsAscii(t);
    AsciiUtf8Bytes(t);
    var h := Utf8Bytes(t);
    assert forall i :: 0 <= i < |h| ==> IsVisibleAscii(h[i]);
    var r := ToStr(h).value;
    assert |r| == |t|;
    forall i | 0 <= i < |t| ensures r[i] == t[i] {
      assert r[i] as int == h[i] as int == t[i] as int;
    }
    assert r == t;
  }

  /** `to_str` of two pieces one after the other is the two texts one after the other. */
  lemma ToStrAppend(a: HeaderValue, b: HeaderValue)
    requires ToStr(a).Some? && ToStr(b).Some?
    ensures ToStr(a + b) == Some(ToStr(a).value + ToStr(b).value)
  {
    var h := a + b;
    assert forall i :: 0 <= i < |h| ==> IsVisibleAscii(h[i]) by {
      forall i | 0 <= i < |h| ensures IsVisibleAscii(h[i]) {
        if i < |a| { assert h[i] == a[i]; } else { assert h[i] == b[i - |a|]; }
      }
    }
    var r, sa, sb := ToStr(h).value, ToStr(a).value, ToStr(b).value;
    assert |r| == |sa + sb|;
    forall i | 0 <= i < |h| ensures r[i] == (sa + sb)[i] {
      if i < |a| {
        assert r[i] as int == h[i] as int == a[i] as int == sa[i] as int;
      } else {
        assert r[i] as int == h[i] as int == b[i - |a|] as int == sb[i - |a|] as int;
      }
    }
    assert r == sa + sb;
  }
}
