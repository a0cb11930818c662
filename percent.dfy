/**
 * `urllib.parse.quote(s, safe='')` and its inverse `unquote_to_bytes`.
 * `quote` first encodes the string as UTF-8, then writes every byte that
 * is not an always-safe ASCII character as `%XX` with upper-case hex
 * digits (section 2.1 of RFC 3986). With `safe=''` even `/` is escaped, so
 * the result can stand as one path segment.
 */
module Percent {
  import opened Strings

  newtype byte = x: int | 0 <= x < 256

  /** Letters, digits and `_.-~`: the characters `quote` never escapes. */
  predicate IsAlwaysSafe(c: char) {
    ('A' <= c <= 'Z') || ('a' <= c <= 'z') || ('0' <= c <= '9') ||
    c == '_' || c == '.' || c == '-' || c == '~'
  }

  /** The UTF-8 encoding of one character (a Unicode scalar value). */
  function Utf8(c: char): (bs: seq<byte>)
    ensures 1 <= |bs| <= 4
    ensures |bs| == 1 <==> (c as int) < 0x80
    ensures |bs| == 1 ==> bs[0] as int == c as int
    ensures forall k :: 1 <= k < |bs| ==> 0x80 <= bs[k] < 0xC0
  {
    var n := c as int;
    if n < 0x80 then [n as byte]
    else if n < 0x800 then [(0xC0 + n / 0x40) as byte, (0x80 + n % 0x40) as byte]
    else if n < 0x10000 then
      [(0xE0 + n / 0x1000) as byte, (0x80 + (n / 0x40) % 0x40) as byte, (0x80 + n % 0x40) as byte]
    else
      [(0xF0 + n / 0x40000) as byte, (0x80 + (n / 0x1000) % 0x40) as byte,
       (0x80 + (n / 0x40) % 0x40) as byte, (0x80 + n % 0x40) as byte]
  }

  /** The code point the UTF-8 sequence of one character stands for. */
  function CodePoint(bs: seq<byte>): int
    requires 1 <= |bs| <= 4
  {
    if |bs| == 1 then bs[0] as int
    else if |bs| == 2 then (bs[0] as int - 0xC0) * 0x40 + (bs[1] as int - 0x80)
    else if |bs| == 3 then
      ((bs[0] as int - 0xE0) * 0x40 + (bs[1] as int - 0x80)) * 0x40 + (bs[2] as int - 0x80)
    else
      (((bs[0] as int - 0xF0) * 0x40 + (bs[1] as int - 0x80)) * 0x40 + (bs[2] as int - 0x80)) * 0x40
        + (bs[3] as int - 0x80)
  }

  /** Decoding the bytes of a character gives the character back. */
  lemma Utf8Decodes(c: char)
    ensures CodePoint(Utf8(c)) == c as int
  {
    var n := c as int;
    var q, r := n / 0x40, n % 0x40;
    assert n == q * 0x40 + r;
    if n >= 0x800 {
      var q2 := q / 0x40;
      assert q == q2 * 0x40 + q % 0x40;
      assert q2 == n / 0x1000;
      if n >= 0x10000 {
        var q3 := q2 / 0x40;
        assert q2 == q3 * 0x40 + q2 % 0x40;
        assert q3 == n / 0x40000;
      }
    }
  }

  /** The UTF-8 encoding of a string. */
  function Utf8String(s: string): (bs: seq<byte>)
    ensures |bs| >= |s|
  {
    if s == [] then [] else Utf8(s[0]) + Utf8String(s[1..])
  }

  const HexDigits: string := "0123456789ABCDEF"

  /** `%XX` for one byte. */
  function Escape(b: byte): (e: string)
    ensures |e| == 3 && e[0] == '%'
  {
    ['%', HexDigits[b as int / 16], HexDigits[b as int % 16]]
  }

  function Escapes(bs: seq<byte>): (e: string)
    ensures |e| == 3 * |bs|
  {
    if bs == [] then "" else Escape(bs[0]) + Escapes(bs[1..])
  }

  /** What `quote` writes for one character. */
  function QuoteChar(c: char): string
  {
    if IsAlwaysSafe(c) then [c] else Escapes(Utf8(c))
  }

  /** `quote(s, safe='')`. */
  function Quote(s: string): (q: string)
    ensures |q| >= |s|
  {
    if s == [] then "" else QuoteChar(s[0]) + Quote(s[1..])
  }

  /** The value of a hex digit of either case, as `unquote` reads it. */
  function HexValue(c: char): (v: int)
    ensures -1 <= v < 16
  {
    if '0' <= c <= '9' then c as int - '0' as int
    else if 'a' <= c <= 'f' then c as int - 'a' as int + 10
    else if 'A' <= c <= 'F' then c as int - 'A' as int + 10
    else -1
  }

  /**
   * `unquote_to_bytes(s)`: each `%` followed by two hex digits is the byte
   * they spell; every other character stands for its UTF-8 bytes.
   */
  function Unquote(s: string): (bs: seq<byte>)
  {
    if s == [] then []
    else if s[0] == '%' && |s| >= 3 && HexValue(s[1]) >= 0 && HexValue(s[2]) >= 0 then
      [(HexValue(s[1]) * 16 + HexValue(s[2])) as byte] + Unquote(s[3..])
    else Utf8(s[0]) + Unquote(s[1..])
  }

  lemma HexRoundTrip(n: int)
    requires 0 <= n < 16
    ensures HexValue(HexDigits[n]) == n
  {
  }

  /** Unquoting an escape gives its byte, and the rest is unquoted after it. */
  lemma UnquoteEscape(b: byte, rest: string)
    ensures Unquote(Escape(b) + rest) == [b] + Unquote(rest)
  {
    var e := Escape(b) + rest;
    HexRoundTrip(b as int / 16);
    HexRoundTrip(b as int % 16);
    assert e[0] == '%' && e[1] == HexDigits[b as int / 16] && e[2] == HexDigits[b as int % 16];
    assert e[3..] == rest;
  }

  lemma EscapesCons(bs: seq<byte>, rest: string)
    requires bs != []
    ensures Escapes(bs) + rest == Escape(bs[0]) + (Escapes(bs[1..]) + rest)
  {
    var e, f := Escape(bs[0]), Escapes(bs[1..]);
    assert Escapes(bs) == e + f;
    AppendAssoc(e, f, rest);
  }

  lemma BytesCons(bs: seq<byte>, t: seq<byte>)
    requires bs != []
    ensures [bs[0]] + (bs[1..] + t) == bs + t
  {
    assert [bs[0]] + bs[1..] == bs;
  }

  lemma {:induction false} UnquoteEscapes(bs: seq<byte>, rest: string)
    ensures Unquote(Escapes(bs) + rest) == bs + Unquote(rest)
  {
    if bs != [] {
      EscapesCons(bs, rest);
      UnquoteEscape(bs[0], Escapes(bs[1..]) + rest);
      UnquoteEscapes(bs[1..], rest);
      BytesCons(bs, Unquote(rest));
    } else {
      assert Escapes(bs) + rest == rest;
    }
  }

  lemma UnquoteQuoteChar(c: char, rest: string)
    ensures Unquote(QuoteChar(c) + rest) == Utf8(c) + Unquote(rest)
  {
    if IsAlwaysSafe(c) {
      var e := [c] + rest;
      assert e[0] == c && e[1..] == rest;
    } else {
      UnquoteEscapes(Utf8(c), rest);
    }
  }

  /** `unquote_to_bytes(quote(s, safe=''))` is the UTF-8 encoding of `s`. */
  lemma {:induction false} QuoteRoundTrip(s: string)
    ensures Unquote(Quote(s)) == Utf8String(s)
  {
    if s != [] {
      UnquoteQuoteChar(s[0], Quote(s[1..]));
      QuoteRoundTrip(s[1..]);
    } else {
      assert Quote(s) == [];
    }
  }

  /** The characters `quote` can write: always-safe ones, `%` and upper-case hex digits. */
  predicate IsQuoted(c: char) {
    IsAlwaysSafe(c) || c == '%'
  }

  lemma {:induction false} EscapesAreQuoted(bs: seq<byte>)
    ensures forall k :: 0 <= k < |Escapes(bs)| ==> IsQuoted(Escapes(bs)[k])
  {
    if bs != [] {
      EscapesAreQuoted(bs[1..]);
      var e, r := Escape(bs[0]), Escapes(bs[1..]);
      assert Escapes(bs) == e + r;
      assert forall k :: 0 <= k < |e| ==> IsQuoted(e[k]);
    }
  }

  /** Every character of a quoted string is always-safe or part of an escape; in particular none is `/`. */
  lemma {:induction false} QuotedCharacters(s: string)
    ensures forall k :: 0 <= k < |Quote(s)| ==> IsQuoted(Quote(s)[k])
    ensures '/' !in Quote(s)
  {
    if s != [] {
      QuotedCharacters(s[1..]);
      EscapesAreQuoted(Utf8(s[0]));
      var q, r := QuoteChar(s[0]), Quote(s[1..]);
      assert Quote(s) == q + r;
      assert forall k :: 0 <= k < |q| ==> IsQuoted(q[k]);
    }
  }

  /** The quoted string is one path segment. */
  lemma QuoteHasNoSlash(s: string)
    ensures '/' !in Quote(s)
  {
    QuotedCharacters(s);
  }

  /** `quote` leaves a string alone exactly when it is made of always-safe characters. */
  lemma {:induction false} QuoteIdentity(s: string)
    ensures Quote(s) == s <==> forall k :: 0 <= k < |s| ==> IsAlwaysSafe(s[k])
  {
    if s != [] {
      QuoteIdentity(s[1..]);
      var q, r := QuoteChar(s[0]), Quote(s[1..]);
      if IsAlwaysSafe(s[0]) {
        assert q == [s[0]];
        assert s == [s[0]] + s[1..];
        assert (forall k :: 0 <= k < |s| ==> IsAlwaysSafe(s[k])) <==>
               (forall k :: 0 <= k < |s[1..]| ==> IsAlwaysSafe(s[1..][k]));
      } else {
        assert |q| == 3 * |Utf8(s[0])| >= 3;
        assert |Quote(s)| >= 2 + |s|;
      }
    }
  }

  lemma {:induction false} Utf8Concat(a: string, b: string)
    ensures Utf8String(a + b) == Utf8String(a) + Utf8String(b)
  {
    if a == [] {
      assert a + b == b;
    } else {
      assert (a + b)[0] == a[0] && (a + b)[1..] == a[1..] + b;
      Utf8Concat(a[1..], b);
    }
  }

  /** Text without `%` unquotes to its own UTF-8 bytes. */
  lemma {:induction false} UnquotePlain(a: string, rest: string)
    requires '%' !in a
    ensures Unquote(a + rest) == Utf8String(a) + Unquote(rest)
  {
    if a == [] {
      assert a + rest == rest;
    } else {
      var s := a + rest;
      assert s[0] == a[0] && s[1..] == a[1..] + rest;
      UnquotePlain(a[1..], rest);
    }
  }

  /** `%2F` is the escape of `/`. */
  lemma SlashEscape(rest: string)
    ensures Unquote("%2F" + rest) == Utf8String("/") + Unquote(rest)
  {
    var b: byte := 0x2F;
    assert Escape(b) == "%2F";
    UnquoteEscape(b, rest);
    assert Utf8String("/") == Utf8('/') + Utf8String([]);
  }
}
