/**
 * The UTF-8 encoding of a string, as `str::bytes` yields it (RFC 3629, section 3):
 * a scalar value below `0x80` is one byte, below `0x800` two, below `0x10000`
 * three, and any other four; every byte after the first carries six bits under
 * the prefix `10`.
 */
module Utf8 {
  import opened Wrappers

  type Byte = b: int | 0 <= b < 256

  /** The bytes of one character. */
  function EncodeChar(c: char): (r: seq<Byte>)
    ensures 1 <= |r| <= 4
    ensures |r| == 1 <==> c as int < 0x80
    ensures |r| == 2 <==> 0x80 <= c as int < 0x800
    ensures |r| == 3 <==> 0x800 <= c as int < 0x10000
    ensures forall k :: 1 <= k < |r| ==> IsContinuation(r[k])
  {
    var cp := c as int;
    var r1 := cp / 64;
    var r2 := r1 / 64;
    if cp < 0x80 then [cp]
    else if cp < 0x800 then [0xC0 + r1, 0x80 + cp % 64]
    else if cp < 0x10000 then [0xE0 + r2, 0x80 + r1 % 64, 0x80 + cp % 64]
    else [0xF0 + r2 / 64, 0x80 + r2 % 64, 0x80 + r1 % 64, 0x80 + cp % 64]
  }

  /** A byte of the form `10xxxxxx`. */
  predicate IsContinuation(b: Byte)
  {
    0x80 <= b < 0xC0
  }

  /** The bytes of a string, character after character (`str::bytes`). */
  function Encode(s: string): (r: seq<Byte>)
    ensures |r| >= |s|
  {
    if |s| == 0 then [] else EncodeChar(s[0]) + Encode(s[1..])
  }

  /** The scalar value `cp` as a character, when it is one. */
  function ToChar(cp: int): Option<char>
  {
    if 0 <= cp < 0xD800 || 0xE000 <= cp < 0x11_0000 then Some(cp as char) else None
  }

  /** The character the bytes start with and the number of bytes it takes, read from the lead byte. */
  function DecodeChar(bs: seq<Byte>): Option<(char, nat)>
  {
    if |bs| == 0 then None
    else if bs[0] < 0x80 then Some((bs[0] as char, 1))
    else if 0xC0 <= bs[0] < 0xE0 && |bs| >= 2 && IsContinuation(bs[1]) then
      match ToChar((bs[0] as int - 0xC0) * 64 + (bs[1] as int - 0x80))
      case Some(c) => Some((c, 2))
      case None => None
    else if 0xE0 <= bs[0] < 0xF0 && |bs| >= 3 && IsContinuation(bs[1]) && IsContinuation(bs[2]) then
      match ToChar((bs[0] as int - 0xE0) * 4096 + (bs[1] as int - 0x80) * 64 + (bs[2] as int - 0x80))
      case Some(c) => Some((c, 3))
      case None => None
    else if 0xF0 <= bs[0] < 0xF8 && |bs| >= 4 && IsContinuation(bs[1]) && IsContinuation(bs[2]) && IsContinuation(bs[3]) then
      match ToChar((bs[0] as int - 0xF0) * 262144 + (bs[1] as int - 0x80) * 4096 + (bs[2] as int - 0x80) * 64 + (bs[3] as int - 0x80))
      case Some(c) => Some((c, 4))
      case None => None
    else None
  }

  /** Reads the characters back from their bytes, or `None` when a lead byte does not start a character. */
  function Decode(bs: seq<Byte>): Option<string>
    decreases |bs|
  {
    if |bs| == 0 then Some([])
    else match DecodeChar(bs)
      case None => None
      case Some((c, n)) =>
        if n == 0 || n > |bs| then None
        else match Decode(bs[n..])
          case None => None
          case Some(rest) => Some([c] + rest)
  }

  /** The bytes of a character, followed by anything, read back as that character. */
  lemma DecodeEncodeChar(c: char, rest: seq<Byte>)
    ensures DecodeChar(EncodeChar(c) + rest) == Some((c, |EncodeChar(c)|))
  {
    var cp := c as int;
    if 0x80 <= cp < 0x800 {
      DecodeTwo(c, rest);
    } else if 0x800 <= cp < 0x10000 {
      DecodeThree(c, rest);
    } else if 0x10000 <= cp {
      DecodeFour(c, rest);
    }
  }

  lemma DecodeTwo(c: char, rest: seq<Byte>)
    requires 0x80 <= c as int < 0x800
    ensures DecodeChar(EncodeChar(c) + rest) == Some((c, 2))
  {
    var cp := c as int;
    var bs := EncodeChar(c) + rest;
    assert cp == (cp / 64) * 64 + cp % 64;
    assert bs[0] as int == 0xC0 + cp / 64 && bs[1] as int == 0x80 + cp % 64;
    assert (bs[0] as int - 0xC0) * 64 + (bs[1] as int - 0x80) == cp;
  }

  lemma DecodeThree(c: char, rest: seq<Byte>)
    requires 0x800 <= c as int < 0x10000
    ensures DecodeChar(EncodeChar(c) + rest) == Some((c, 3))
  {
    var cp := c as int;
    var bs := EncodeChar(c) + rest;
    var r1 := cp / 64;
    var r2 := r1 / 64;
    assert cp == r1 * 64 + cp % 64 && r1 == r2 * 64 + r1 % 64;
    assert bs[0] as int == 0xE0 + r2 && bs[1] as int == 0x80 + r1 % 64 && bs[2] as int == 0x80 + cp % 64;
  }

  lemma DecodeFour(c: char, rest: seq<Byte>)
    requires 0x10000 <= c as int
    ensures DecodeChar(EncodeChar(c) + rest) == Some((c, 4))
  {
    var cp := c as int;
    var bs := EncodeChar(c) + rest;
    var r1 := cp / 64;
    var r2 := r1 / 64;
    assert cp == r1 * 64 + cp % 64 && r1 == r2 * 64 + r1 % 64 && r2 == (r2 / 64) * 64 + r2 % 64;
    assert bs[0] as int == 0xF0 + r2 / 64 && bs[1] as int == 0x80 + r2 % 64;
    assert bs[2] as int == 0x80 + r1 % 64 && bs[3] as int == 0x80 + cp % 64;
  }

  /** Encoding loses nothing: the bytes decode to the string they came from. */
  lemma {:induction false} DecodeEncode(s: string)
    ensures Decode(Encode(s)) == Some(s)
  {
    if |s| > 0 {
      var head := EncodeChar(s[0]);
      var rest := Encode(s[1..]);
      DecodeEncodeChar(s[0], rest);
      assert (head + rest)[|head|..] == rest;
      DecodeEncode(s[1..]);
      assert Encode(s) == head + rest;
      assert [s[0]] + s[1..] == s;
    }
  }

  /** An ASCII string is its own bytes. */
  lemma {:induction false} EncodeAscii(s: string)
    requires forall k :: 0 <= k < |s| ==> s[k] as int < 0x80
    ensures |Encode(s)| == |s|
    ensures forall k :: 0 <= k < |s| ==> Encode(s)[k] == s[k] as int
  {
    if |s| > 0 {
      EncodeAscii(s[1..]);
    }
  }
}
