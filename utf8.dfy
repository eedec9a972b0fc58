/** UTF-8 (RFC 3629), the encoding `Buffer.from(string)` applies to the composed
    reply before it is base64url-encoded. A character is a Unicode scalar value. */
module Utf8 {
  import opened Js

  /** A continuation byte, `10xxxxxx`. */
  predicate IsContinuation(b: byte) {
    0x80 <= b < 0xC0
  }

  /** The one to four bytes of one character. */
  function EncodeChar(c: char): (r: seq<byte>)
    ensures 1 <= |r| <= 4
    ensures (c as int < 0x80) <==> |r| == 1
    ensures forall k :: 1 <= k < |r| ==> IsContinuation(r[k])
  {
    var n := c as int;
    if n < 0x80 then [n as byte]
    else if n < 0x800 then [(0xC0 + n / 64) as byte, (0x80 + n % 64) as byte]
    else if n < 0x10000 then
      var q := n / 64;
      [(0xE0 + q / 64) as byte, (0x80 + q % 64) as byte, (0x80 + n % 64) as byte]
    else
      var q := n / 64;
      var q2 := q / 64;
      [(0xF0 + q2 / 64) as byte, (0x80 + q2 % 64) as byte, (0x80 + q % 64) as byte, (0x80 + n % 64) as byte]
  }

  /** `Buffer.from(s)`: the UTF-8 bytes of a string. */
  function Encode(s: string): (r: seq<byte>)
    ensures |s| <= |r| <= 4 * |s|
    ensures |r| == |s| <==> forall k :: 0 <= k < |s| ==> s[k] as int < 0x80
    decreases |s|
  {
    if s == [] then [] else EncodeChar(s[0]) + Encode(s[1..])
  }

  /** Strict decoding of the character at the start of `bs`, with the number of bytes
      it takes; `None` for a malformed, overlong or surrogate sequence. */
  function DecodeChar(bs: seq<byte>): (r: Option<(char, nat)>)
    ensures r.Some? ==> 1 <= r.value.1 <= |bs|
  {
    if |bs| == 0 then None
    else
      var b0 := bs[0] as int;
      if b0 < 0x80 then Some((b0 as char, 1))
      else if 0xC0 <= b0 < 0xE0 && |bs| >= 2 && IsContinuation(bs[1]) then
        var n := (b0 - 0xC0) * 64 + (bs[1] as int - 0x80);
        if n < 0x80 then None else Some((n as char, 2))
      else if 0xE0 <= b0 < 0xF0 && |bs| >= 3 && IsContinuation(bs[1]) && IsContinuation(bs[2]) then
        var n := (b0 - 0xE0) * 4096 + (bs[1] as int - 0x80) * 64 + (bs[2] as int - 0x80);
        if n < 0x800 || (0xD800 <= n < 0xE000) then None else Some((n as char, 3))
      else if 0xF0 <= b0 < 0xF8 && |bs| >= 4 && IsContinuation(bs[1]) && IsContinuation(bs[2]) && IsContinuation(bs[3]) then
        var n := (b0 - 0xF0) * 262144 + (bs[1] as int - 0x80) * 4096 + (bs[2] as int - 0x80) * 64 + (bs[3] as int - 0x80);
        if n < 0x10000 || n >= 0x110000 then None else Some((n as char, 4))
      else None
  }

  /** Strict decoding of a whole byte sequence. */
  function Decode(bs: seq<byte>): Option<string>
    decreases |bs|
  {
    if bs == [] then Some("")
    else
      match DecodeChar(bs)
      case None => None
      case Some((c, len)) =>
        match Decode(bs[len..])
        case None => None
        case Some(rest) => Some([c] + rest)
  }

  /** The encoding of a character decodes back to it, whatever follows. */
  lemma DecodeEncodeChar(c: char, rest: seq<byte>)
    ensures DecodeChar(EncodeChar(c) + rest) == Some((c, |EncodeChar(c)|))
  {
  }

  /** Decoding the UTF-8 encoding of a string gives the string back. */
  lemma {:induction false} DecodeEncode(s: string)
    ensures Decode(Encode(s)) == Some(s)
    decreases |s|
  {
    if s != [] {
      var e := EncodeChar(s[0]);
      var bs := Encode(s);
      assert bs == e + Encode(s[1..]);
      DecodeEncodeChar(s[0], Encode(s[1..]));
      assert bs[|e|..] == Encode(s[1..]);
      DecodeEncode(s[1..]);
      assert [s[0]] + s[1..] == s;
    }
  }

  /** Different strings have different encodings. */
  lemma EncodeInjective(s: string, t: string)
    requires Encode(s) == Encode(t)
    ensures s == t
  {
    DecodeEncode(s);
    DecodeEncode(t);
  }

  /** Known answers from RFC 3629's layout: one, two, three and four bytes. */
  lemma KnownAnswers()
    ensures Encode("A") == [0x41]
    ensures Encode("\U{E9}") == [0xC3, 0xA9]
    ensures Encode("\U{20AC}") == [0xE2, 0x82, 0xAC]
    ensures Encode("\U{1F600}") == [0xF0, 0x9F, 0x98, 0x80]
  {
  }
}
