/** Base64url, the URL- and filename-safe alphabet of section 5 of RFC 4648, without
    `=` padding and without line breaks: what `Buffer.toString('base64url')` gives. */
module Base64Url {
  import opened Js

  /** A 6-bit value. */
  type sextet = k: int | 0 <= k < 64

  /** The alphabet of Table 2 of RFC 4648: `A`-`Z`, `a`-`z`, `0`-`9`, `-`, `_`. */
  function CharOf(k: sextet): char {
    if k < 26 then ('A' as int + k) as char
    else if k < 52 then ('a' as int + (k - 26)) as char
    else if k < 62 then ('0' as int + (k - 52)) as char
    else if k == 62 then '-'
    else '_'
  }

  /** The value of an alphabet character, `None` for any other character. */
  function ValueOf(c: char): Option<sextet> {
    if 'A' <= c <= 'Z' then Some(c as int - 'A' as int)
    else if 'a' <= c <= 'z' then Some(c as int - 'a' as int + 26)
    else if '0' <= c <= '9' then Some(c as int - '0' as int + 52)
    else if c == '-' then Some(62)
    else if c == '_' then Some(63)
    else None
  }

  /** A character of the base64url alphabet. */
  predicate IsAlphabetChar(c: char) {
    ValueOf(c).Some?
  }

  lemma ValueOfCharOf(k: sextet)
    ensures ValueOf(CharOf(k)) == Some(k)
  {
  }

  /** The four characters of three bytes. */
  function EncodeGroup(b0: byte, b1: byte, b2: byte): string {
    var x0, x1, x2 := b0 as int, b1 as int, b2 as int;
    [CharOf(x0 / 4), CharOf((x0 % 4) * 16 + x1 / 16), CharOf((x1 % 16) * 4 + x2 / 64), CharOf(x2 % 64)]
  }

  /** `Buffer.from(bs).toString('base64url')`. */
  function Encode(bs: seq<byte>): (r: string)
    ensures |r| == (4 * |bs| + 2) / 3
    ensures forall k :: 0 <= k < |r| ==> IsAlphabetChar(r[k])
    decreases |bs|
  {
    if |bs| >= 3 then
      var g := EncodeGroup(bs[0], bs[1], bs[2]);
      assert forall k :: 0 <= k < 4 ==> IsAlphabetChar(g[k]) by {
        forall k | 0 <= k < 4 ensures IsAlphabetChar(g[k]) {
          var x0, x1, x2 := bs[0] as int, bs[1] as int, bs[2] as int;
          ValueOfCharOf(x0 / 4);
          ValueOfCharOf((x0 % 4) * 16 + x1 / 16);
          ValueOfCharOf((x1 % 16) * 4 + x2 / 64);
          ValueOfCharOf(x2 % 64);
        }
      }
      g + Encode(bs[3..])
    else if |bs| == 2 then
      var x0, x1 := bs[0] as int, bs[1] as int;
      ValueOfCharOf(x0 / 4);
      ValueOfCharOf((x0 % 4) * 16 + x1 / 16);
      ValueOfCharOf((x1 % 16) * 4);
      [CharOf(x0 / 4), CharOf((x0 % 4) * 16 + x1 / 16), CharOf((x1 % 16) * 4)]
    else if |bs| == 1 then
      var x0 := bs[0] as int;
      ValueOfCharOf(x0 / 4);
      ValueOfCharOf((x0 % 4) * 16);
      [CharOf(x0 / 4), CharOf((x0 % 4) * 16)]
    else []
  }

  /** Strict decoding of unpadded base64url: `None` for a character outside the
      alphabet, a length of the form 4k+1, or non-zero bits left over in the last
      character. */
  function Decode(s: string): Option<seq<byte>>
    decreases |s|
  {
    if |s| == 0 then Some([])
    else if |s| == 1 then None
    else if ValueOf(s[0]).None? || ValueOf(s[1]).None? then None
    else
      var v0, v1 := ValueOf(s[0]).value, ValueOf(s[1]).value;
      if |s| == 2 then
        if v1 % 16 != 0 then None else Some([(v0 * 4 + v1 / 16) as byte])
      else if ValueOf(s[2]).None? then None
      else
        var v2 := ValueOf(s[2]).value;
        if |s| == 3 then
          if v2 % 4 != 0 then None
          else Some([(v0 * 4 + v1 / 16) as byte, ((v1 % 16) * 16 + v2 / 4) as byte])
        else if ValueOf(s[3]).None? then None
        else
          var v3 := ValueOf(s[3]).value;
          match Decode(s[4..])
          case None => None
          case Some(rest) =>
            Some([(v0 * 4 + v1 / 16) as byte, ((v1 % 16) * 16 + v2 / 4) as byte, ((v2 % 4) * 64 + v3) as byte] + rest)
  }

  /** A group of four characters decodes to its three bytes, ahead of what the rest
      decodes to. */
  lemma DecodeGroup(b0: byte, b1: byte, b2: byte, rest: string)
    requires Decode(rest).Some?
    ensures Decode(EncodeGroup(b0, b1, b2) + rest) == Some([b0, b1, b2] + Decode(rest).value)
  {
    var x0, x1, x2 := b0 as int, b1 as int, b2 as int;
    var s0, s1, s2, s3 := x0 / 4, (x0 % 4) * 16 + x1 / 16, (x1 % 16) * 4 + x2 / 64, x2 % 64;
    var s := EncodeGroup(b0, b1, b2) + rest;
    assert s[0] == CharOf(s0) && s[1] == CharOf(s1) && s[2] == CharOf(s2) && s[3] == CharOf(s3);
    assert s[4..] == rest;
    ValueOfCharOf(s0);
    ValueOfCharOf(s1);
    ValueOfCharOf(s2);
    ValueOfCharOf(s3);
    assert s0 * 4 + s1 / 16 == x0;
    assert (s1 % 16) * 16 + s2 / 4 == x1;
    assert (s2 % 4) * 64 + s3 == x2;
  }

  /** Two trailing bytes: three characters, the last with two zero bits. */
  lemma DecodeTwoBytes(b0: byte, b1: byte)
    ensures Decode(Encode([b0, b1])) == Some([b0, b1])
  {
    var x0, x1 := b0 as int, b1 as int;
    var s0, s1, s2 := x0 / 4, (x0 % 4) * 16 + x1 / 16, (x1 % 16) * 4;
    ValueOfCharOf(s0);
    ValueOfCharOf(s1);
    ValueOfCharOf(s2);
    assert Encode([b0, b1]) == [CharOf(s0), CharOf(s1), CharOf(s2)];
    assert s2 % 4 == 0;
    assert s0 * 4 + s1 / 16 == x0;
    assert (s1 % 16) * 16 + s2 / 4 == x1;
  }

  /** One trailing byte: two characters, the last with four zero bits. */
  lemma DecodeOneByte(b0: byte)
    ensures Decode(Encode([b0])) == Some([b0])
  {
    var x0 := b0 as int;
    var s0, s1 := x0 / 4, (x0 % 4) * 16;
    ValueOfCharOf(s0);
    ValueOfCharOf(s1);
    assert Encode([b0]) == [CharOf(s0), CharOf(s1)];
    assert s1 % 16 == 0 && s0 * 4 + s1 / 16 == x0;
  }

  /** Decoding the encoding of a byte sequence gives the bytes back. */
  lemma {:induction false} DecodeEncode(bs: seq<byte>)
    ensures Decode(Encode(bs)) == Some(bs)
    decreases |bs|
  {
    if |bs| >= 3 {
      DecodeEncode(bs[3..]);
      DecodeGroup(bs[0], bs[1], bs[2], Encode(bs[3..]));
      assert [bs[0], bs[1], bs[2]] + bs[3..] == bs;
    } else if |bs| == 2 {
      DecodeTwoBytes(bs[0], bs[1]);
      assert bs == [bs[0], bs[1]];
    } else if |bs| == 1 {
      DecodeOneByte(bs[0]);
      assert bs == [bs[0]];
    }
  }

  /** Different byte sequences have different encodings. */
  lemma EncodeInjective(bs: seq<byte>, cs: seq<byte>)
    requires Encode(bs) == Encode(cs)
    ensures bs == cs
  {
    DecodeEncode(bs);
    DecodeEncode(cs);
  }

  /** Known answers: the RFC 4648 example `Man`, a one-byte input, and the two
      characters where base64url differs from base64 (`-` and `_`). */
  lemma KnownAnswers()
    ensures Encode([77, 97, 110]) == "TWFu"
    ensures Encode([77]) == "TQ"
    ensures Encode([0xFB, 0xFF]) == "-_8"
  {
  }
}
