/** Percent-encoding of search terms: Python's `requests.utils.quote`
    (`urllib.parse.quote` with `safe='/'`) and JavaScript's
    `encodeURIComponent`.  Both encode a character outside their safe set as
    the `%XX` escapes of its UTF-8 bytes, with upper-case hex digits. */
module UrlEncoding {

  type Byte = b: int | 0 <= b < 256

  /** The UTF-8 encoding of one code point. */
  function Utf8(c: char): (bs: seq<Byte>)
    ensures 1 <= |bs| <= 4
    ensures (c as int < 0x80) <==> |bs| == 1
    ensures |bs| == 1 ==> bs[0] == c as int
  {
    var n := c as int;
    if n < 0x80 then [n]
    else if n < 0x800 then [0xC0 + n / 64, 0x80 + n % 64]
    else if n < 0x10000 then [0xE0 + n / 4096, 0x80 + (n / 64) % 64, 0x80 + n % 64]
    else [0xF0 + n / 262144, 0x80 + (n / 4096) % 64, 0x80 + (n / 64) % 64, 0x80 + n % 64]
  }

  /** `s.encode("utf-8")`. */
  function Utf8String(s: string): (bs: seq<Byte>)
    ensures |bs| >= |s|
  {
    if |s| == 0 then [] else Utf8(s[0]) + Utf8String(s[1..])
  }

  predicate IsAsciiAlnum(c: char) {
    ('a' <= c <= 'z') || ('A' <= c <= 'Z') || ('0' <= c <= '9')
  }

  /** The characters `quote(s, safe='/')` leaves alone. */
  predicate PySafe(c: char) {
    IsAsciiAlnum(c) || c == '_' || c == '.' || c == '-' || c == '~' || c == '/'
  }

  /** The characters `encodeURIComponent` leaves alone. */
  predicate JsSafe(c: char) {
    IsAsciiAlnum(c) || c == '-' || c == '_' || c == '.' || c == '!' || c == '~'
    || c == '*' || c == '\'' || c == '(' || c == ')'
  }

  predicate IsHexDigit(c: char) {
    ('0' <= c <= '9') || ('A' <= c <= 'F') || ('a' <= c <= 'f')
  }

  function HexValue(c: char): (d: nat)
    requires IsHexDigit(c)
    ensures d < 16
  {
    if '0' <= c <= '9' then c as int - '0' as int
    else if 'A' <= c <= 'F' then c as int - 'A' as int + 10
    else c as int - 'a' as int + 10
  }

  /** The upper-case hex digit for `d`. */
  function HexDigit(d: nat): (c: char)
    requires d < 16
    ensures IsHexDigit(c) && HexValue(c) == d
    ensures ('0' <= c <= '9') || ('A' <= c <= 'F')
  {
    if d < 10 then ('0' as int + d) as char else ('A' as int + d - 10) as char
  }

  /** `%XX` for one byte. */
  function Escape(b: Byte): (e: string)
    ensures |e| == 3 && e[0] == '%' && IsHexDigit(e[1]) && IsHexDigit(e[2])
    ensures HexValue(e[1]) * 16 + HexValue(e[2]) == b
  {
    ['%', HexDigit(b / 16), HexDigit(b % 16)]
  }

  function EscapeAll(bs: seq<Byte>): (e: string)
    ensures |e| == 3 * |bs|
  {
    if |bs| == 0 then "" else Escape(bs[0]) + EscapeAll(bs[1..])
  }

  function EncodeChar(c: char, safe: char -> bool): string {
    if safe(c) then [c] else EscapeAll(Utf8(c))
  }

  /** Percent-encoding with the given safe set. */
  function Encode(s: string, safe: char -> bool): (e: string)
    ensures |e| >= |s|
  {
    if |s| == 0 then "" else EncodeChar(s[0], safe) + Encode(s[1..], safe)
  }

  function Quote(s: string): string { Encode(s, PySafe) }

  function EncodeUriComponent(s: string): string { Encode(s, JsSafe) }

  // ---------------------------------------------------------------------------
  // Decoding, the partner of encoding
  // ---------------------------------------------------------------------------

  /** `urllib.parse.unquote_to_bytes`: `%XX` with two hex digits becomes that
      byte; every other character stands for its UTF-8 bytes. */
  function Unquote(t: string): seq<Byte>
    decreases |t|
  {
    if |t| == 0 then []
    else if t[0] == '%' && |t| >= 3 && IsHexDigit(t[1]) && IsHexDigit(t[2]) then
      [HexValue(t[1]) * 16 + HexValue(t[2])] + Unquote(t[3..])
    else Utf8(t[0]) + Unquote(t[1..])
  }

  lemma {:induction false} UnquoteEscapes(bs: seq<Byte>, rest: string)
    ensures Unquote(EscapeAll(bs) + rest) == bs + Unquote(rest)
    decreases |bs|
  {
    if |bs| > 0 {
      var e := Escape(bs[0]);
      var t := EscapeAll(bs) + rest;
      assert t == e + (EscapeAll(bs[1..]) + rest);
      assert t[0] == '%' && t[1] == e[1] && t[2] == e[2];
      assert t[3..] == EscapeAll(bs[1..]) + rest;
      assert Unquote(t) == [HexValue(t[1]) * 16 + HexValue(t[2])] + Unquote(t[3..]);
      assert HexValue(t[1]) * 16 + HexValue(t[2]) == bs[0];
      UnquoteEscapes(bs[1..], rest);
      assert Unquote(t) == [bs[0]] + (bs[1..] + Unquote(rest));
      assert bs == [bs[0]] + bs[1..];
    } else {
      assert EscapeAll(bs) + rest == rest;
    }
  }

  /** Decoding undoes encoding, for any safe set that keeps `%` escaped. */
  lemma {:induction false} UnquoteEncode(s: string, safe: char -> bool)
    requires !safe('%')
    ensures Unquote(Encode(s, safe)) == Utf8String(s)
    decreases |s|
  {
    if |s| > 0 {
      var c := s[0];
      var rest := Encode(s[1..], safe);
      UnquoteEncode(s[1..], safe);
      if safe(c) {
        var t := [c] + rest;
        assert t[0] == c && t[1..] == rest;
      } else {
        UnquoteEscapes(Utf8(c), rest);
      }
    }
  }

  lemma QuoteRoundTrip(s: string)
    ensures Unquote(Quote(s)) == Utf8String(s)
  {
    UnquoteEncode(s, PySafe);
  }

  lemma EncodeUriComponentRoundTrip(s: string)
    ensures Unquote(EncodeUriComponent(s)) == Utf8String(s)
  {
    UnquoteEncode(s, JsSafe);
  }

  // ---------------------------------------------------------------------------
  // What the encoded text looks like
  // ---------------------------------------------------------------------------

  predicate EncodedChar(c: char, safe: char -> bool) {
    safe(c) || c == '%' || ('0' <= c <= '9') || ('A' <= c <= 'F')
  }

  lemma {:induction false} EscapeAllAlphabet(bs: seq<Byte>, safe: char -> bool)
    ensures forall k :: 0 <= k < |EscapeAll(bs)| ==> EncodedChar(EscapeAll(bs)[k], safe)
    decreases |bs|
  {
    if |bs| > 0 {
      EscapeAllAlphabet(bs[1..], safe);
      var e := Escape(bs[0]);
      assert EscapeAll(bs) == e + EscapeAll(bs[1..]);
    }
  }

  /** The encoding holds only safe characters, `%` and upper-case hex
      digits. */
  lemma {:induction false} EncodeAlphabet(s: string, safe: char -> bool)
    ensures forall k :: 0 <= k < |Encode(s, safe)| ==> EncodedChar(Encode(s, safe)[k], safe)
    decreases |s|
  {
    if |s| > 0 {
      var head := EncodeChar(s[0], safe);
      var rest := Encode(s[1..], safe);
      EncodeAlphabet(s[1..], safe);
      if !safe(s[0]) {
        EscapeAllAlphabet(Utf8(s[0]), safe);
      }
      assert Encode(s, safe) == head + rest;
      forall k | 0 <= k < |head + rest|
        ensures EncodedChar((head + rest)[k], safe)
      {
        if k >= |head| {
          assert (head + rest)[k] == rest[k - |head|];
        }
      }
    }
  }

  /** The encoding is the input itself exactly when every input character is
      safe. */
  lemma {:induction false} EncodeIdentity(s: string, safe: char -> bool)
    ensures (forall k :: 0 <= k < |s| ==> safe(s[k])) <==> Encode(s, safe) == s
    decreases |s|
  {
    if |s| > 0 {
      var c := s[0];
      var rest := Encode(s[1..], safe);
      EncodeIdentity(s[1..], safe);
      assert Encode(s, safe) == EncodeChar(c, safe) + rest;
      if !safe(c) {
        assert |Encode(s, safe)| > |s|;
      } else {
        assert s == [c] + s[1..];
        assert Encode(s, safe) == [c] + rest;
        if Encode(s, safe) == s {
          assert rest == s[1..];
        }
        assert forall k :: 1 <= k < |s| ==> s[k] == s[1..][k - 1];
      }
    }
  }
}
