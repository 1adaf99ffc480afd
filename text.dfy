/**
 * The parts of Rust's `str` API the server relies on, over `string` (a sequence of
 * Unicode scalar values): `split` on one character, `lines`, `trim`, `starts_with`,
 * `contains` and ASCII lower-casing.
 */
module Text {

  newtype byte = x: int | 0 <= x < 256

  /** Every character is in the 7-bit ASCII range. */
  predicate IsAscii(s: string) {
    forall c :: c in s ==> c < '\U{80}'
  }

  // ---------------------------------------------------------------------------
  // split

  /** `s.split(sep)`: n separators give n + 1 pieces, empty pieces included. */
  function Split(s: string, sep: char): (parts: seq<string>)
    ensures |parts| >= 1
    decreases |s|
  {
    if |s| == 0 then [""]
    else
      var rest := Split(s[1..], sep);
      if s[0] == sep then [""] + rest
      else [[s[0]] + rest[0]] + rest[1..]
  }

  /** Glues pieces back together with `sep` between neighbours. */
  function Join(parts: seq<string>, sep: char): string
  {
    if |parts| == 0 then ""
    else if |parts| == 1 then parts[0]
    else parts[0] + [sep] + Join(parts[1..], sep)
  }

  /** Joining the pieces of a split gives back the string. */
  lemma {:induction false} JoinSplit(s: string, sep: char)
    ensures Join(Split(s, sep), sep) == s
    decreases |s|
  {
    if |s| > 0 {
      var rest := Split(s[1..], sep);
      JoinSplit(s[1..], sep);
      if s[0] == sep {
        assert s == [sep] + s[1..];
      } else if |rest| == 1 {
        assert s == [s[0]] + s[1..];
      } else {
        assert rest == [rest[0]] + rest[1..];
        assert s == [s[0]] + s[1..];
      }
    }
  }

  /** No piece of a split holds the separator. */
  lemma {:induction false} SplitPieces(s: string, sep: char)
    ensures forall k :: 0 <= k < |Split(s, sep)| ==> sep !in Split(s, sep)[k]
    decreases |s|
  {
    if |s| > 0 {
      SplitPieces(s[1..], sep);
    }
  }

  /** A string without the separator is a single piece. */
  lemma {:induction false} SplitWithoutSeparator(s: string, sep: char)
    requires sep !in s
    ensures Split(s, sep) == [s]
    decreases |s|
  {
    if |s| > 0 {
      SplitWithoutSeparator(s[1..], sep);
      assert s == [s[0]] + s[1..];
    }
  }

  /** A first piece free of the separator is split off exactly. */
  lemma {:induction false} SplitCons(first: string, sep: char, rest: string)
    requires sep !in first
    ensures Split(first + [sep] + rest, sep) == [first] + Split(rest, sep)
    decreases |first|
  {
    var s := first + [sep] + rest;
    if |first| == 0 {
      assert s == [sep] + rest;
      assert s[1..] == rest;
    } else {
      SplitCons(first[1..], sep, rest);
      assert s[1..] == first[1..] + [sep] + rest;
      assert [first[0]] + first[1..] == first;
    }
  }

  /** Splitting at one separator splits both sides independently. */
  lemma {:induction false} SplitAppend(a: string, sep: char, b: string)
    ensures Split(a + [sep] + b, sep) == Split(a, sep) + Split(b, sep)
    decreases |a|
  {
    var i := IndexOf(a, sep);
    if i == |a| {
      SplitCons(a, sep, b);
      SplitWithoutSeparator(a, sep);
    } else {
      var a1, a2 := a[..i], a[i + 1..];
      assert a == a1 + [sep] + a2;
      assert sep !in a1;
      SplitCons(a1, sep, a2);
      assert a + [sep] + b == a1 + [sep] + (a2 + [sep] + b);
      SplitCons(a1, sep, a2 + [sep] + b);
      SplitAppend(a2, sep, b);
    }
  }

  /** How many times `c` occurs in `s`. */
  function Occurrences(s: string, c: char): nat
  {
    if |s| == 0 then 0 else (if s[0] == c then 1 else 0) + Occurrences(s[1..], c)
  }

  /** A split has one piece more than the string has separators. */
  lemma {:induction false} SplitLength(s: string, sep: char)
    ensures |Split(s, sep)| == Occurrences(s, sep) + 1
    decreases |s|
  {
    if |s| > 0 {
      SplitLength(s[1..], sep);
    }
  }

  // ---------------------------------------------------------------------------
  // trim

  /** `char::is_whitespace`: the Unicode White_Space property. */
  predicate IsWhitespace(c: char) {
    || c == ' ' || ('\t' <= c <= '\r') || c == '\U{85}' || c == '\U{A0}' || c == '\U{1680}'
    || ('\U{2000}' <= c <= '\U{200A}') || c == '\U{2028}' || c == '\U{2029}' || c == '\U{202F}'
    || c == '\U{205F}' || c == '\U{3000}'
  }

  /** `s.trim_start()`: drops the longest whitespace prefix. */
  function TrimStart(s: string): (r: string)
    ensures |r| <= |s| && r == s[|s| - |r|..]
    ensures |r| == 0 || !IsWhitespace(r[0])
    ensures forall i :: 0 <= i < |s| - |r| ==> IsWhitespace(s[i])
    decreases |s|
  {
    if |s| > 0 && IsWhitespace(s[0]) then TrimStart(s[1..]) else s
  }

  /** `s.trim_end()`: drops the longest whitespace suffix. */
  function TrimEnd(s: string): (r: string)
    ensures |r| <= |s| && r == s[..|r|]
    ensures |r| == 0 || !IsWhitespace(r[|r| - 1])
    ensures forall i :: |r| <= i < |s| ==> IsWhitespace(s[i])
    decreases |s|
  {
    if |s| > 0 && IsWhitespace(s[|s| - 1]) then TrimEnd(s[..|s| - 1]) else s
  }

  /** `s.trim()`: a slice of `s` with no whitespace at either end. */
  function Trim(s: string): (r: string)
    ensures |r| == 0 || (!IsWhitespace(r[0]) && !IsWhitespace(r[|r| - 1]))
  {
    TrimEnd(TrimStart(s))
  }

  /** A leading space makes no difference to the trim. */
  lemma TrimBlankPrefix(s: string)
    ensures Trim(" " + s) == Trim(s)
  {
    assert (" " + s)[1..] == s;
  }

  /** A string that starts and ends with a non-blank character is its own trim. */
  lemma TrimUnchanged(s: string)
    requires |s| > 0 && !IsWhitespace(s[0]) && !IsWhitespace(s[|s| - 1])
    ensures Trim(s) == s
  {
  }

  // ---------------------------------------------------------------------------
  // starts_with, contains, to_lowercase

  /** `s.starts_with(p)`. */
  predicate StartsWith(s: string, p: string) {
    |p| <= |s| && s[..|p|] == p
  }

  /** `n` occurs in `s` starting at index `i`. */
  predicate OccursAt(s: string, n: string, i: int) {
    0 <= i <= |s| - |n| && s[i..i + |n|] == n
  }

  /** `s.contains(n)`: `n` occurs somewhere in `s` as a contiguous run. */
  predicate Contains(s: string, n: string) {
    exists i | 0 <= i <= |s| :: OccursAt(s, n, i)
  }

  /** An occurrence of `outer` carries an occurrence of every run inside it. */
  lemma ContainsInner(s: string, outer: string, inner: string, offset: nat)
    requires offset + |inner| <= |outer| && outer[offset..offset + |inner|] == inner
    requires Contains(s, outer)
    ensures Contains(s, inner)
  {
    var i :| 0 <= i <= |s| && OccursAt(s, outer, i);
    assert s[i..i + |outer|] == outer;
    assert forall j :: 0 <= j < |outer| ==> s[i + j] == outer[j];
    assert s[i + offset..i + offset + |inner|] == outer[offset..offset + |inner|];
    assert OccursAt(s, inner, i + offset);
  }

  /** ASCII lower-casing of one character; everything else is left alone. */
  function LowerChar(c: char): char {
    if 'A' <= c <= 'Z' then (c as int + 32) as char else c
  }

  /**
   * `s.to_lowercase()` restricted to ASCII letters. It agrees with Rust's full Unicode
   * lower-casing on every ASCII string, the only strings it is applied to here.
   */
  function AsciiLower(s: string): (r: string)
    ensures |r| == |s|
    ensures forall i :: 0 <= i < |s| ==> r[i] == LowerChar(s[i])
  {
    seq(|s|, i requires 0 <= i < |s| => LowerChar(s[i]))
  }

  // ---------------------------------------------------------------------------
  // as_bytes

  /** The UTF-8 encoding of one character. */
  function CharBytes(c: char): (b: seq<byte>)
    ensures 1 <= |b| <= 4
    ensures c < '\U{80}' ==> b == [c as int as byte]
  {
    var n := c as int;
    if n < 0x80 then [n as byte]
    else if n < 0x800 then [(0xC0 + n / 64) as byte, (0x80 + n % 64) as byte]
    else if n < 0x10000 then
      [(0xE0 + n / 4096) as byte, (0x80 + n / 64 % 64) as byte, (0x80 + n % 64) as byte]
    else
      [(0xF0 + n / 262144) as byte, (0x80 + n / 4096 % 64) as byte, (0x80 + n / 64 % 64) as byte,
       (0x80 + n % 64) as byte]
  }

  /** `s.as_bytes()`: the UTF-8 encoding of a string. */
  function Utf8Bytes(s: string): seq<byte>
  {
    if |s| == 0 then [] else CharBytes(s[0]) + Utf8Bytes(s[1..])
  }

  /** An ASCII string is encoded one octet per character, each octet its code. */
  lemma {:induction false} AsciiUtf8Bytes(s: string)
    requires IsAscii(s)
    ensures |Utf8Bytes(s)| == |s|
    ensures forall i :: 0 <= i < |s| ==> Utf8Bytes(s)[i] as int == s[i] as int
  {
    if |s| > 0 {
      assert s[0] in s;
      assert forall c :: c in s[1..] ==> c in s;
      AsciiUtf8Bytes(s[1..]);
    }
  }

  /** Index of the last `c` in `s`, or -1 when there is none. */
  function LastIndexOf(s: string, c: char): (i: int)
    ensures -1 <= i < |s|
    ensures 0 <= i ==> s[i] == c
    ensures forall j :: i < j < |s| ==> s[j] != c
    decreases |s|
  {
    if |s| == 0 then -1
    else if s[|s| - 1] == c then |s| - 1
    else LastIndexOf(s[..|s| - 1], c)
  }

  // ---------------------------------------------------------------------------
  // lines

  /** Index of the first `c` in `s`, or `|s|` when there is none. */
  function IndexOf(s: string, c: char): (i: nat)
    ensures i <= |s|
    ensures i < |s| ==> s[i] == c
    ensures forall j :: 0 <= j < i ==> s[j] != c
    decreases |s|
  {
    if |s| == 0 then 0 else if s[0] == c then 0 else 1 + IndexOf(s[1..], c)
  }

  /** Drops one trailing carriage return. */
  function StripCr(line: string): string {
    if |line| > 0 && line[|line| - 1] == '\r' then line[..|line| - 1] else line
  }

  /**
   * `s.lines()`: pieces ended by `\n` or `\r\n`; the last line needs no terminator and
   * a final terminator does not open an empty line. A lone `\r` is kept.
   */
  function Lines(s: string): (ls: seq<string>)
    decreases |s|
  {
    if |s| == 0 then []
    else
      var i := IndexOf(s, '\n');
      if i == |s| then [s] else [StripCr(s[..i])] + Lines(s[i + 1..])
  }

  /** A first line ended by `\n` is split off from the rest exactly. */
  lemma LinesCons(first: string, rest: string)
    requires '\n' !in first
    ensures Lines(first + "\n" + rest) == [StripCr(first)] + Lines(rest)
  {
    var s := first + "\n" + rest;
    assert s[|first|] == '\n';
    assert forall j :: 0 <= j < |first| ==> s[j] == first[j];
    var i := IndexOf(s, '\n');
    assert i == |first|;
    assert s[..i] == first;
    assert s[i + 1..] == rest;
  }
}
