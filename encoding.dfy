/** Byte-level encodings the server applies to strings: UTF-8 (what `Buffer.from(s)`
    and `hmac.update(s)` do to a string), lower-case hex (`digest("hex")`) and
    Node's lenient hex decoder (`Buffer.from(s, "hex")`). */
module Encoding {
  import opened Wrappers

  newtype byte = x: int | 0 <= x < 256

  /** UTF-8 encoding of one Unicode scalar value. */
  function CharUtf8(c: char): seq<byte>
  {
    var n := c as int;
    if n < 0x80 then [n as byte]
    else if n < 0x800 then [(0xC0 + n / 0x40) as byte, (0x80 + n % 0x40) as byte]
    else if n < 0x1_0000 then
      [(0xE0 + n / 0x1000) as byte, (0x80 + n / 0x40 % 0x40) as byte, (0x80 + n % 0x40) as byte]
    else
      [(0xF0 + n / 0x4_0000) as byte, (0x80 + n / 0x1000 % 0x40) as byte,
       (0x80 + n / 0x40 % 0x40) as byte, (0x80 + n % 0x40) as byte]
  }

  /** UTF-8 encoding of a string: between one and four bytes per character, and
      one byte per character exactly when the string is ASCII. */
  function Utf8(s: string): (r: seq<byte>)
    ensures |s| <= |r| <= 4 * |s|
    ensures |r| == |s| <==> IsAscii(s)
  {
    if s == [] then []
    else
      CharUtf8Lead(s[0]);
      assert IsAscii(s) <==> s[0] as int < 0x80 && IsAscii(s[1..]);
      CharUtf8(s[0]) + Utf8(s[1..])
  }

  predicate IsAscii(s: string)
  {
    forall i :: 0 <= i < |s| ==> s[i] as int < 0x80
  }

  /** A character encodes to a single byte exactly when it is ASCII, and only then
      does its encoding start with a byte below 0x80. */
  lemma CharUtf8Lead(c: char)
    ensures 1 <= |CharUtf8(c)| <= 4
    ensures (|CharUtf8(c)| == 1) == (c as int < 0x80)
    ensures (CharUtf8(c)[0] < 0x80) == (c as int < 0x80)
    ensures c as int < 0x80 ==> CharUtf8(c) == [c as int as byte]
  {
  }

  /** The only string whose UTF-8 encoding equals that of an ASCII string is that
      string itself. */
  lemma {:induction false} Utf8MatchesAscii(s: string, t: string)
    requires IsAscii(t)
    requires Utf8(s) == Utf8(t)
    ensures s == t
  {
    if t != [] {
      CharUtf8Lead(t[0]);
      assert s != [];
      CharUtf8Lead(s[0]);
      assert Utf8(s)[0] == CharUtf8(s[0])[0];
      assert Utf8(t)[0] == CharUtf8(t[0])[0];
      assert s[0] == t[0];
      assert Utf8(s[1..]) == Utf8(s)[1..];
      assert Utf8(t[1..]) == Utf8(t)[1..];
      Utf8MatchesAscii(s[1..], t[1..]);
      assert s == [s[0]] + s[1..];
      assert t == [t[0]] + t[1..];
    }
  }

  /** A lower-case hex digit: `0-9` or `a-f`. */
  predicate IsHexDigit(c: char)
  {
    '0' <= c <= '9' || 'a' <= c <= 'f'
  }

  /** The lower-case hex digit of a nibble. */
  function HexDigit(d: nat): (c: char)
    requires d < 16
    ensures IsHexDigit(c)
  {
    if d < 10 then ('0' as int + d) as char else ('a' as int + d - 10) as char
  }

  /** Lower-case hexadecimal rendering, two characters per byte, high nibble first. */
  function Hex(bytes: seq<byte>): (r: string)
    ensures |r| == 2 * |bytes|
    ensures forall i :: 0 <= i < |r| ==> IsHexDigit(r[i])
  {
    if bytes == [] then []
    else [HexDigit(bytes[0] as int / 16), HexDigit(bytes[0] as int % 16)] + Hex(bytes[1..])
  }

  /** A hex rendering is ASCII and never contains a character that is not a
      lower-case hex digit. */
  lemma HexAvoids(bytes: seq<byte>, c: char)
    requires !IsHexDigit(c)
    ensures c !in Hex(bytes) && IsAscii(Hex(bytes))
  {
  }

  /** The value of one hex digit, either case; `None` for any other character. */
  function HexValue(c: char): (v: Option<nat>)
    ensures v.Some? ==> v.value < 16
  {
    if '0' <= c <= '9' then Some(c as int - '0' as int)
    else if 'a' <= c <= 'f' then Some(c as int - 'a' as int + 10)
    else if 'A' <= c <= 'F' then Some(c as int - 'A' as int + 10)
    else None
  }

  /** `Buffer.from(s, "hex")`: one byte per pair of characters, stopping at the
      first pair that is not two hex digits; a trailing odd character is dropped. */
  function HexDecode(s: string): (r: seq<byte>)
    ensures |r| <= |s| / 2
  {
    if |s| < 2 then []
    else
      var hi := HexValue(s[0]);
      var lo := HexValue(s[1]);
      if hi.None? || lo.None? then []
      else [(hi.value * 16 + lo.value) as byte] + HexDecode(s[2..])
  }

  /** Decoding a hex rendering gives the bytes back. */
  lemma {:induction false} HexDecodeHex(bytes: seq<byte>)
    ensures HexDecode(Hex(bytes)) == bytes
  {
    if bytes != [] {
      var b := bytes[0];
      var hi, lo := b as int / 16, b as int % 16;
      var h := Hex(bytes);
      assert h == [HexDigit(hi), HexDigit(lo)] + Hex(bytes[1..]);
      assert HexValue(HexDigit(hi)) == Some(hi) && HexValue(HexDigit(lo)) == Some(lo);
      assert h[2..] == Hex(bytes[1..]);
      HexDecodeHex(bytes[1..]);
      assert (hi * 16 + lo) as byte == b;
      assert bytes == [b] + bytes[1..];
    }
  }
}
