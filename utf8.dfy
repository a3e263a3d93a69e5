/**
 * UTF-8 as defined by RFC 3629: the encoding that turns playlist bytes into text
 * (`String(data:encoding: .utf8)`), text back into bytes (`data(using: .utf8)`),
 * and that percent-escapes stand for (`removingPercentEncoding`).
 */
module Utf8 {
  import opened Wrappers

  type byte = x: int | 0 <= x < 256

  predicate IsContinuation(b: byte) { 0x80 <= b < 0xC0 }

  /** The bytes that encode one Unicode scalar value. */
  function EncodeChar(c: char): (r: seq<byte>)
    ensures 1 <= |r| <= 4
    ensures (|r| == 1) == (c as int < 0x80)
    ensures |r| == 1 ==> r[0] == c as int
    ensures |r| > 1 ==> r[0] >= 0xC2 && forall i :: 1 <= i < |r| ==> IsContinuation(r[i])
  {
    var n := c as int;
    if n < 0x80 then [n]
    else if n < 0x800 then [0xC0 + n / 64, 0x80 + n % 64]
    else if n < 0x10000 then [0xE0 + n / 4096, 0x80 + (n / 64) % 64, 0x80 + n % 64]
    else [0xF0 + n / 262144, 0x80 + (n / 4096) % 64, 0x80 + (n / 64) % 64, 0x80 + n % 64]
  }

  function Encode(s: string): seq<byte>
  {
    if s == [] then [] else EncodeChar(s[0]) + Encode(s[1..])
  }

  predicate IsScalar(n: int) { 0 <= n < 0xD800 || 0xE000 <= n < 0x110000 }

  /**
   * Decodes the sequence that starts `bs`: the character and the number of bytes it
   * takes, or None when the bytes there are not a shortest-form encoding of a scalar.
   */
  function DecodeFirst(bs: seq<byte>): (r: Option<(char, nat)>)
    requires |bs| > 0
    ensures r.Some? ==> 1 <= r.value.1 <= |bs|
  {
    var b0 := bs[0] as int;
    if b0 < 0x80 then Some((b0 as char, 1))
    else if 0xC2 <= b0 < 0xE0 then
      if |bs| < 2 || !IsContinuation(bs[1]) then None
      else
        var n := (b0 - 0xC0) * 64 + (bs[1] as int - 0x80);
        Some((n as char, 2))
    else if 0xE0 <= b0 < 0xF0 then
      if |bs| < 3 || !IsContinuation(bs[1]) || !IsContinuation(bs[2]) then None
      else
        var n := (b0 - 0xE0) * 4096 + (bs[1] as int - 0x80) * 64 + (bs[2] as int - 0x80);
        if n < 0x800 || !IsScalar(n) then None else Some((n as char, 3))
    else if 0xF0 <= b0 < 0xF5 then
      if |bs| < 4 || !IsContinuation(bs[1]) || !IsContinuation(bs[2]) || !IsContinuation(bs[3]) then None
      else
        var n := (b0 - 0xF0) * 262144 + (bs[1] as int - 0x80) * 4096 + (bs[2] as int - 0x80) * 64 + (bs[3] as int - 0x80);
        if n < 0x10000 || 0x110000 <= n then None else Some((n as char, 4))
    else None
  }

  /** The text the bytes encode, or None when they are not valid UTF-8. */
  function Decode(bs: seq<byte>): Option<string>
    decreases |bs|
  {
    if bs == [] then Some([])
    else match DecodeFirst(bs)
      case None => None
      case Some((c, n)) =>
        match Decode(bs[n..])
        case None => None
        case Some(rest) => Some([c] + rest)
  }

  lemma {:induction false} EncodeAppend(a: string, b: string)
    ensures Encode(a + b) == Encode(a) + Encode(b)
  {
    if a != [] {
      assert (a + b)[1..] == a[1..] + b;
      EncodeAppend(a[1..], b);
    } else {
      assert a + b == b;
    }
  }

  lemma Split2(n: int)
    requires 0x80 <= n < 0x800
    ensures 0xC2 <= 0xC0 + n / 64 < 0xE0 && (n / 64) * 64 + n % 64 == n
  {}

  lemma Split3(n: int)
    requires 0x800 <= n < 0x10000
    ensures 0xE0 <= 0xE0 + n / 4096 < 0xF0
    ensures (n / 4096) * 4096 + ((n / 64) % 64) * 64 + n % 64 == n
  {}

  lemma Split4(n: int)
    requires 0x10000 <= n < 0x110000
    ensures 0xF0 <= 0xF0 + n / 262144 < 0xF5
    ensures (n / 262144) * 262144 + ((n / 4096) % 64) * 4096 + ((n / 64) % 64) * 64 + n % 64 == n
  {}

  /** Every character's encoding is decoded back to that character. */
  lemma DecodeFirstEncodeChar(c: char, rest: seq<byte>)
    ensures DecodeFirst(EncodeChar(c) + rest) == Some((c, |EncodeChar(c)|))
  {
    var n := c as int;
    var bs := EncodeChar(c) + rest;
    if n < 0x80 {
    } else if n < 0x800 {
      Split2(n);
      assert bs[0] as int == 0xC0 + n / 64 && bs[1] as int == 0x80 + n % 64;
    } else if n < 0x10000 {
      Split3(n);
      assert bs[0] as int == 0xE0 + n / 4096 && bs[1] as int == 0x80 + (n / 64) % 64;
      assert bs[2] as int == 0x80 + n % 64;
    } else {
      Split4(n);
      assert bs[0] as int == 0xF0 + n / 262144 && bs[1] as int == 0x80 + (n / 4096) % 64;
      assert bs[2] as int == 0x80 + (n / 64) % 64 && bs[3] as int == 0x80 + n % 64;
    }
  }

  /** Round trip: decoding the encoding of any text gives the text back. */
  lemma {:induction false} DecodeEncode(s: string)
    ensures Decode(Encode(s)) == Some(s)
  {
    if s != [] {
      var rest := Encode(s[1..]);
      DecodeFirstEncodeChar(s[0], rest);
      assert (EncodeChar(s[0]) + rest)[|EncodeChar(s[0])|..] == rest;
      DecodeEncode(s[1..]);
      assert [s[0]] + s[1..] == s;
    }
  }

  lemma DivMod64(q: int, r: int)
    requires 0 <= q && 0 <= r < 64
    ensures (q * 64 + r) / 64 == q && (q * 64 + r) % 64 == r
  {}

  lemma Join2(x: int, y: int)
    requires 0 <= x < 32 && 0 <= y < 64
    ensures (x * 64 + y) / 64 == x && (x * 64 + y) % 64 == y
  {
    DivMod64(x, y);
  }

  lemma Join3(x: int, y: int, z: int)
    requires 0 <= x < 16 && 0 <= y < 64 && 0 <= z < 64
    ensures var n := x * 4096 + y * 64 + z; n / 4096 == x && (n / 64) % 64 == y && n % 64 == z
  {
    var m := x * 64 + y;
    DivMod64(m, z);
    DivMod64(x, y);
    assert x * 4096 + y * 64 + z == m * 64 + z;
    var n := m * 64 + z;
    assert n / 4096 == (n / 64) / 64;
  }

  lemma Join4(w: int, x: int, y: int, z: int)
    requires 0 <= w < 8 && 0 <= x < 64 && 0 <= y < 64 && 0 <= z < 64
    ensures var n := w * 262144 + x * 4096 + y * 64 + z;
      n / 262144 == w && (n / 4096) % 64 == x && (n / 64) % 64 == y && n % 64 == z
  {
    var k := w * 64 + x;
    var m := k * 64 + y;
    var n := m * 64 + z;
    assert w * 262144 + x * 4096 + y * 64 + z == n;
    DivMod64(m, z);
    DivMod64(k, y);
    DivMod64(w, x);
    assert n / 4096 == (n / 64) / 64;
    assert n / 262144 == ((n / 64) / 64) / 64;
  }

  /** A successful first-step decode consumed exactly the encoding of its character. */
  lemma DecodeFirstExact(bs: seq<byte>)
    requires |bs| > 0 && DecodeFirst(bs).Some?
    ensures var (c, n) := DecodeFirst(bs).value; EncodeChar(c) == bs[..n]
  {
    var b0 := bs[0] as int;
    if 0xC2 <= b0 < 0xE0 {
      Join2(b0 - 0xC0, bs[1] as int - 0x80);
    } else if 0xE0 <= b0 < 0xF0 {
      Join3(b0 - 0xE0, bs[1] as int - 0x80, bs[2] as int - 0x80);
    } else if 0xF0 <= b0 {
      Join4(b0 - 0xF0, bs[1] as int - 0x80, bs[2] as int - 0x80, bs[3] as int - 0x80);
    }
  }

  /** A successful decode is the first character followed by the decode of the rest. */
  lemma DecodeStep(bs: seq<byte>)
    requires bs != [] && Decode(bs).Some?
    ensures DecodeFirst(bs).Some?
    ensures var n := DecodeFirst(bs).value.1;
      Decode(bs[n..]).Some? && Decode(bs).value == [DecodeFirst(bs).value.0] + Decode(bs[n..]).value
  {
  }

  lemma EncodeCons(c: char, t: string)
    ensures Encode([c] + t) == EncodeChar(c) + Encode(t)
  {
    assert ([c] + t)[0] == c && ([c] + t)[1..] == t;
  }

  /** Decoding is exact: text that the bytes decode to encodes to the same bytes. */
  lemma {:induction false} EncodeDecode(bs: seq<byte>)
    requires Decode(bs).Some?
    ensures Encode(Decode(bs).value) == bs
    decreases |bs|
  {
    if bs != [] {
      DecodeStep(bs);
      var c, n := DecodeFirst(bs).value.0, DecodeFirst(bs).value.1;
      var tail := Decode(bs[n..]).value;
      assert EncodeChar(c) == bs[..n] by { DecodeFirstExact(bs); }
      assert Encode(tail) == bs[n..] by { EncodeDecode(bs[n..]); }
      assert Encode(Decode(bs).value) == EncodeChar(c) + Encode(tail) by { EncodeCons(c, tail); }
      assert bs == bs[..n] + bs[n..];
    }
  }
}
