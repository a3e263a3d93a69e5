/**
 * Percent-encoding as in section 2.1 of RFC 3986: a character outside a safe set is
 * written as `%XX` for each byte of its UTF-8 encoding, and decoding turns every
 * `%XX` back into its byte and reads the result as UTF-8 (Foundation's
 * `removingPercentEncoding`, which fails on a malformed escape or invalid UTF-8).
 */
module PercentCoding {
  import opened Wrappers
  import opened Text
  import Utf8

  predicate IsPercent(c: char) { c == '%' }
  predicate IsHexDigit(c: char) { '0' <= c <= '9' || 'A' <= c <= 'F' || 'a' <= c <= 'f' }

  function HexValue(c: char): (n: nat)
    requires IsHexDigit(c)
    ensures n < 16
  {
    if '0' <= c <= '9' then c as int - '0' as int
    else if 'A' <= c <= 'F' then c as int - 'A' as int + 10
    else c as int - 'a' as int + 10
  }

  /** The upper-case hexadecimal digit of `n`. */
  function HexChar(n: nat): (c: char)
    requires n < 16
    ensures IsHexDigit(c) && HexValue(c) == n
  {
    if n < 10 then ('0' as int + n) as char else ('A' as int + n - 10) as char
  }

  predicate IsAlphaNum(c: char) { 'a' <= c <= 'z' || 'A' <= c <= 'Z' || '0' <= c <= '9' }

  predicate IsPlus(c: char) { c == '+' }

  /**
   * The characters a query-item name or value keeps literally: the unreserved ones
   * and the sub-delimiters of RFC 3986 that do not separate items or names from
   * values, and no character a regular-expression template treats specially. A `+`
   * is kept as it is, as `URLComponents` keeps it.
   */
  predicate IsQuerySafe(c: char)
  {
    || IsAlphaNum(c)
    || c == '-' || c == '.' || c == '_' || c == '~'
    || c == '!' || c == '\'' || c == '(' || c == ')' || c == '*' || c == '+' || c == ',' || c == ';'
    || c == ':' || c == '@' || c == '/' || c == '?'
  }

  function EscapeBytes(bs: seq<Utf8.byte>): string
  {
    if bs == [] then []
    else ['%', HexChar(bs[0] / 16), HexChar(bs[0] % 16)] + EscapeBytes(bs[1..])
  }

  function EncodeChar(c: char): string
  {
    if IsQuerySafe(c) then [c] else EscapeBytes(Utf8.EncodeChar(c))
  }

  /** The percent-encoded form of a query-item name or value. */
  function Encode(s: string): string
  {
    if s == [] then [] else EncodeChar(s[0]) + Encode(s[1..])
  }

  /** The bytes `s` stands for, or None when an escape is malformed. */
  function DecodeBytes(s: string): Option<seq<Utf8.byte>>
  {
    if s == [] then Some([])
    else if s[0] == '%' then
      if |s| < 3 || !IsHexDigit(s[1]) || !IsHexDigit(s[2]) then None
      else match DecodeBytes(s[3..])
        case None => None
        case Some(rest) => Some([HexValue(s[1]) * 16 + HexValue(s[2])] + rest)
    else match DecodeBytes(s[1..])
      case None => None
      case Some(rest) => Some(Utf8.EncodeChar(s[0]) + rest)
  }

  /** Every `%` in `s` starts a well-formed escape. */
  predicate WellEscaped(s: string) { DecodeBytes(s).Some? }

  /** The text a percent-encoded string stands for (`removingPercentEncoding`). */
  function Decode(s: string): Option<string>
  {
    match DecodeBytes(s)
    case None => None
    case Some(bs) => Utf8.Decode(bs)
  }

  lemma {:induction false} DecodeBytesAppend(a: string, b: string)
    requires WellEscaped(a) && WellEscaped(b)
    ensures DecodeBytes(a + b) == Some(DecodeBytes(a).value + DecodeBytes(b).value)
    decreases |a|
  {
    if a == [] {
      assert a + b == b;
      assert DecodeBytes(a).value + DecodeBytes(b).value == DecodeBytes(b).value;
    } else if a[0] == '%' {
      assert (a + b)[0] == '%' && (a + b)[1] == a[1] && (a + b)[2] == a[2];
      assert (a + b)[3..] == a[3..] + b;
      DecodeBytesAppend(a[3..], b);
      var e, x, y := [HexValue(a[1]) * 16 + HexValue(a[2])], DecodeBytes(a[3..]).value, DecodeBytes(b).value;
      assert DecodeBytes(a + b) == Some(e + (x + y));
      assert e + (x + y) == (e + x) + y;
    } else {
      assert (a + b)[0] == a[0] && (a + b)[1..] == a[1..] + b;
      DecodeBytesAppend(a[1..], b);
      var e, x, y := Utf8.EncodeChar(a[0]), DecodeBytes(a[1..]).value, DecodeBytes(b).value;
      assert DecodeBytes(a + b) == Some(e + (x + y));
      assert e + (x + y) == (e + x) + y;
    }
  }

  lemma {:induction false} DecodeEscapeBytes(bs: seq<Utf8.byte>)
    ensures DecodeBytes(EscapeBytes(bs)) == Some(bs)
  {
    if bs != [] {
      var tail := EscapeBytes(bs[1..]);
      var e := ['%', HexChar(bs[0] / 16), HexChar(bs[0] % 16)] + tail;
      assert e[0] == '%' && e[1] == HexChar(bs[0] / 16) && e[2] == HexChar(bs[0] % 16);
      assert e[3..] == tail;
      DecodeEscapeBytes(bs[1..]);
      assert [bs[0]] + bs[1..] == bs;
    }
  }

  /** Decoding an encoding gives the UTF-8 bytes of the text. */
  lemma {:induction false} DecodeBytesEncode(s: string)
    ensures DecodeBytes(Encode(s)) == Some(Utf8.Encode(s))
  {
    if s != [] {
      var c := s[0];
      if IsQuerySafe(c) {
        assert Encode(s)[0] == c && Encode(s)[1..] == Encode(s[1..]);
      } else {
        DecodeEscapeBytes(Utf8.EncodeChar(c));
        DecodeBytesEncode(s[1..]);
        DecodeBytesAppend(EncodeChar(c), Encode(s[1..]));
      }
      DecodeBytesEncode(s[1..]);
    }
  }

  /** Round trip: percent-decoding an encoded name or value gives it back. */
  lemma DecodeEncode(s: string)
    ensures Decode(Encode(s)) == Some(s)
  {
    DecodeBytesEncode(s);
    Utf8.DecodeEncode(s);
  }

  /** Without `%`, a string's bytes are its UTF-8 encoding. */
  lemma {:induction false} DecodeBytesPlain(s: string)
    requires NoneOf(s, IsPercent)
    ensures DecodeBytes(s) == Some(Utf8.Encode(s))
  {
    if s != [] {
      assert s[0] != '%';
      DecodeBytesPlain(s[1..]);
    }
  }

  /** Percent-decoding a string with no `%` in it leaves it unchanged. */
  lemma DecodePlain(s: string)
    requires NoneOf(s, IsPercent)
    ensures Decode(s) == Some(s)
  {
    DecodeBytesPlain(s);
    Utf8.DecodeEncode(s);
  }

  predicate IsEncodedChar(c: char) { IsQuerySafe(c) || IsPercent(c) }

  lemma {:induction false} EscapeBytesChars(bs: seq<Utf8.byte>)
    ensures AllOf(EscapeBytes(bs), IsEncodedChar)
  {
    if bs != [] {
      EscapeBytesChars(bs[1..]);
      var h := ['%', HexChar(bs[0] / 16), HexChar(bs[0] % 16)];
      AllOfAppend(h, EscapeBytes(bs[1..]), IsEncodedChar);
    }
  }

  /** An encoding holds only safe characters and `%`. */
  lemma {:induction false} EncodeChars(s: string)
    ensures AllOf(Encode(s), IsEncodedChar)
  {
    if s != [] {
      EncodeChars(s[1..]);
      if !IsQuerySafe(s[0]) {
        EscapeBytesChars(Utf8.EncodeChar(s[0]));
      }
      AllOfAppend(EncodeChar(s[0]), Encode(s[1..]), IsEncodedChar);
    }
  }

  /** The characters of an escape: `%` and hexadecimal digits. */
  predicate IsEscapeChar(c: char) { IsPercent(c) || IsHexDigit(c) }

  lemma {:induction false} EscapeBytesHex(bs: seq<Utf8.byte>)
    ensures AllOf(EscapeBytes(bs), IsEscapeChar)
  {
    if bs != [] {
      EscapeBytesHex(bs[1..]);
      var h := ['%', HexChar(bs[0] / 16), HexChar(bs[0] % 16)];
      AllOfAppend(h, EscapeBytes(bs[1..]), IsEscapeChar);
    }
  }

  /** Encoding adds no `+`: a text without one encodes to a text without one. */
  lemma {:induction false} EncodeNoPlus(s: string)
    requires NoneOf(s, IsPlus)
    ensures NoneOf(Encode(s), IsPlus)
  {
    if s != [] {
      assert NoneOf(s[1..], IsPlus) by { NoneOfSuffix(s, 1, IsPlus); }
      EncodeNoPlus(s[1..]);
      assert NoneOf(EncodeChar(s[0]), IsPlus) by {
        if !IsQuerySafe(s[0]) {
          EscapeBytesHex(Utf8.EncodeChar(s[0]));
        }
      }
      NoneOfAppend(EncodeChar(s[0]), Encode(s[1..]), IsPlus);
    }
  }

  /** A nonempty text has a nonempty encoding. */
  lemma EncodeNonEmpty(s: string)
    requires s != []
    ensures Encode(s) != []
  {
    if !IsQuerySafe(s[0]) {
      assert |Utf8.EncodeChar(s[0])| > 0;
    }
  }

  /** A nonempty string never decodes to the empty text. */
  lemma DecodeNonEmpty(s: string)
    requires s != [] && Decode(s).Some?
    ensures Decode(s).value != []
  {
    var bs := DecodeBytes(s).value;
    if s[0] == '%' {
      assert bs == [HexValue(s[1]) * 16 + HexValue(s[2])] + DecodeBytes(s[3..]).value;
    } else {
      assert bs == Utf8.EncodeChar(s[0]) + DecodeBytes(s[1..]).value;
    }
    assert bs != [];
  }
}
