/** Percent-decoding of link text (section 2.1 of RFC 3986), restricted to
    escapes of ASCII characters: `%XX` with two hexadecimal digits names one
    byte, and a `%` not followed by two hexadecimal digits stands for itself. */
module PercentDecoding {

  predicate IsHexDigit(c: char) {
    '0' <= c <= '9' || 'a' <= c <= 'f' || 'A' <= c <= 'F'
  }

  function HexValue(c: char): (v: nat)
    requires IsHexDigit(c)
    ensures v < 16
  {
    if '0' <= c <= '9' then (c - '0') as nat
    else if 'a' <= c <= 'f' then (c - 'a') as nat + 10
    else (c - 'A') as nat + 10
  }

  /** The upper-case hexadecimal digit for `v`. */
  function HexDigit(v: nat): (c: char)
    requires v < 16
    ensures IsHexDigit(c) && HexValue(c) == v
  {
    if v < 10 then ('0' as int + v) as char else ('A' as int + v - 10) as char
  }

  /** True when `s` opens with an escape `%XX` of an ASCII character. */
  predicate StartsWithAsciiEscape(s: string) {
    |s| >= 3 && s[0] == '%' && IsHexDigit(s[1]) && IsHexDigit(s[2])
    && HexValue(s[1]) * 16 + HexValue(s[2]) < 128
  }

  /** Decodes every escape of an ASCII character; all other text, including a
      stray `%` and escapes of bytes 0x80 and above, is kept as it is. */
  function PercentDecode(s: string): (r: string)
    ensures |r| <= |s|
    ensures '%' !in s ==> r == s
    decreases |s|
  {
    if |s| == 0 then ""
    else if StartsWithAsciiEscape(s) then
      [(HexValue(s[1]) * 16 + HexValue(s[2])) as char] + PercentDecode(s[3..])
    else
      [s[0]] + PercentDecode(s[1..])
  }

  /** Text without `%` decodes to itself, whatever follows it. */
  lemma {:induction false} DecodePlainPrefix(a: string, b: string)
    requires '%' !in a
    ensures PercentDecode(a + b) == a + PercentDecode(b)
  {
    if |a| > 0 {
      DecodePlainPrefix(a[1..], b);
      assert a + b == [a[0]] + (a[1..] + b);
      DecodeOther(a[0], a[1..] + b);
      assert a == [a[0]] + a[1..];
    } else {
      assert a + b == b;
    }
  }

  /** The escape `%XX` of an ASCII character. */
  function Escape(c: char): (r: string)
    requires c < 128 as char
    ensures |r| == 3 && StartsWithAsciiEscape(r)
  {
    ['%', HexDigit(c as nat / 16), HexDigit(c as nat % 16)]
  }

  /** Percent-encodes every character of `s` that is in `escaped`. */
  function PercentEncode(s: string, escaped: set<char>): string
    requires forall c :: c in escaped ==> c < 128 as char
  {
    if |s| == 0 then ""
    else (if s[0] in escaped then Escape(s[0]) else [s[0]]) + PercentEncode(s[1..], escaped)
  }

  /** An escape decodes back to its character, ahead of the decoding of the rest. */
  lemma DecodeEscape(c: char, rest: string)
    requires c < 128 as char
    ensures PercentDecode(Escape(c) + rest) == [c] + PercentDecode(rest)
  {
    var hi, lo := c as nat / 16, c as nat % 16;
    var e := Escape(c) + rest;
    assert e[0] == '%' && e[1] == HexDigit(hi) && e[2] == HexDigit(lo);
    assert StartsWithAsciiEscape(e);
    assert e[3..] == rest;
    assert HexValue(e[1]) * 16 + HexValue(e[2]) == c as nat;
  }

  /** A character other than `%` decodes to itself, ahead of the decoding of the rest. */
  lemma DecodeOther(c: char, rest: string)
    requires c != '%'
    ensures PercentDecode([c] + rest) == [c] + PercentDecode(rest)
  {
    assert ([c] + rest)[1..] == rest;
  }

  /** Decoding undoes encoding, provided `%` itself is among the escaped characters. */
  lemma {:induction false} DecodeEncode(s: string, escaped: set<char>)
    requires forall c :: c in escaped ==> c < 128 as char
    requires '%' in escaped
    ensures PercentDecode(PercentEncode(s, escaped)) == s
  {
    if |s| > 0 {
      var rest := PercentEncode(s[1..], escaped);
      DecodeEncode(s[1..], escaped);
      if s[0] in escaped {
        assert PercentEncode(s, escaped) == Escape(s[0]) + rest;
        DecodeEscape(s[0], rest);
      } else {
        assert PercentEncode(s, escaped) == [s[0]] + rest;
        DecodeOther(s[0], rest);
      }
      assert s == [s[0]] + s[1..];
    }
  }
}
