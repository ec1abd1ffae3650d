/**
 * Strict UTF-8, as used by Python's `bytes.decode()` (default codec) on the
 * host and by MicroPython's `UART.write(str)` on the device.  Decoding fails
 * (None) on every ill-formed sequence: stray continuation bytes, truncated
 * sequences, overlong forms, surrogates and code points above U+10FFFF.
 */
module Utf8 {
  import opened Wrappers

  /** One octet on the serial link. */
  newtype byte = x: int | 0 <= x < 0x100

  /** The frame terminator `\n`. */
  const LF: byte := 10

  predicate IsContinuation(b: byte) {
    0x80 <= b < 0xC0
  }

  /** The UTF-8 encoding of one Unicode scalar value. */
  function EncodeChar(c: char): (bs: seq<byte>)
    ensures 1 <= |bs| <= 4
    ensures |bs| == 1 <==> c as int < 0x80
    ensures |bs| == 1 ==> bs[0] as int == c as int
    ensures |bs| > 1 ==> forall i :: 0 <= i < |bs| ==> bs[i] >= 0x80
  {
    var n := c as int;
    if n < 0x80 then
      [n as byte]
    else if n < 0x800 then
      [(0xC0 + n / 64) as byte, (0x80 + n % 64) as byte]
    else if n < 0x10000 then
      [(0xE0 + n / 4096) as byte, (0x80 + (n / 64) % 64) as byte, (0x80 + n % 64) as byte]
    else
      [(0xF0 + n / 262144) as byte, (0x80 + (n / 4096) % 64) as byte,
       (0x80 + (n / 64) % 64) as byte, (0x80 + n % 64) as byte]
  }

  function Encode(s: string): (bs: seq<byte>)
    ensures |bs| >= |s|
  {
    if s == [] then [] else EncodeChar(s[0]) + Encode(s[1..])
  }

  /**
   * Decodes the first scalar value of `bs`; on success also returns the
   * number of bytes it occupies.
   */
  function DecodeChar(bs: seq<byte>): (r: Option<(char, nat)>)
    requires |bs| > 0
    ensures r.Some? ==> 1 <= r.value.1 <= |bs|
  {
    var b0 := bs[0] as int;
    if b0 < 0x80 then
      Some((b0 as char, 1))
    else if b0 < 0xC0 then
      None
    else if b0 < 0xE0 then
      if |bs| < 2 || !IsContinuation(bs[1]) then None
      else
        var n := (b0 - 0xC0) * 64 + (bs[1] as int - 0x80);
        if n < 0x80 then None else Some((n as char, 2))
    else if b0 < 0xF0 then
      if |bs| < 3 || !IsContinuation(bs[1]) || !IsContinuation(bs[2]) then None
      else
        var n := (b0 - 0xE0) * 4096 + (bs[1] as int - 0x80) * 64 + (bs[2] as int - 0x80);
        if n < 0x800 || 0xD800 <= n < 0xE000 then None else Some((n as char, 3))
    else if b0 < 0xF8 then
      if |bs| < 4 || !IsContinuation(bs[1]) || !IsContinuation(bs[2]) || !IsContinuation(bs[3]) then None
      else
        var n := (b0 - 0xF0) * 262144 + (bs[1] as int - 0x80) * 4096
                 + (bs[2] as int - 0x80) * 64 + (bs[3] as int - 0x80);
        if n < 0x10000 || n >= 0x110000 then None else Some((n as char, 4))
    else
      None
  }

  /** `bytes.decode()`: the decoded text, or None where Python raises. */
  function Decode(bs: seq<byte>): (r: Option<string>)
    ensures r.Some? ==> |r.value| <= |bs|
    decreases |bs|
  {
    if bs == [] then Some([])
    else
      match DecodeChar(bs)
      case None => None
      case Some((c, k)) =>
        match Decode(bs[k..])
        case None => None
        case Some(rest) => Some([c] + rest)
  }

  lemma DecodeEncodeChar(c: char, rest: seq<byte>)
    ensures DecodeChar(EncodeChar(c) + rest) == Some((c, |EncodeChar(c)|))
  {
    var n := c as int;
    if n < 0x80 {
    } else if n < 0x800 {
      DecodeTwo(c, rest);
    } else if n < 0x10000 {
      DecodeThree(c, rest);
    } else {
      DecodeFour(c, rest);
    }
  }

  lemma DecodeTwo(c: char, rest: seq<byte>)
    requires 0x80 <= c as int < 0x800
    ensures DecodeChar(EncodeChar(c) + rest) == Some((c, 2))
  {
    var n := c as int;
    var q, r := n / 64, n % 64;
    assert n == 64 * q + r;
    var bs := EncodeChar(c) + rest;
    assert bs[0] as int == 0xC0 + q && bs[1] as int == 0x80 + r;
  }

  lemma DecodeThree(c: char, rest: seq<byte>)
    requires 0x800 <= c as int < 0x10000
    ensures DecodeChar(EncodeChar(c) + rest) == Some((c, 3))
  {
    var n := c as int;
    var q, r := n / 64, n % 64;
    var q2, r2 := q / 64, q % 64;
    assert n == 64 * q + r && q == 64 * q2 + r2;
    assert n / 4096 == q2;
    var bs := EncodeChar(c) + rest;
    assert bs[0] as int == 0xE0 + q2 && bs[1] as int == 0x80 + r2 && bs[2] as int == 0x80 + r;
  }

  lemma DecodeFour(c: char, rest: seq<byte>)
    requires 0x10000 <= c as int
    ensures DecodeChar(EncodeChar(c) + rest) == Some((c, 4))
  {
    var n := c as int;
    var q, r := n / 64, n % 64;
    var q2, r2 := q / 64, q % 64;
    var q3, r3 := q2 / 64, q2 % 64;
    assert n == 64 * q + r && q == 64 * q2 + r2 && q2 == 64 * q3 + r3;
    assert n / 4096 == q2 && n / 262144 == q3;
    var bs := EncodeChar(c) + rest;
    assert bs[0] as int == 0xF0 + q3 && bs[1] as int == 0x80 + r3;
    assert bs[2] as int == 0x80 + r2 && bs[3] as int == 0x80 + r;
  }

  /** Decoding undoes encoding, for every string. */
  lemma {:induction false} DecodeEncode(s: string)
    ensures Decode(Encode(s)) == Some(s)
  {
    if s != [] {
      var e := EncodeChar(s[0]);
      DecodeEncodeChar(s[0], Encode(s[1..]));
      assert (e + Encode(s[1..]))[|e|..] == Encode(s[1..]);
      DecodeEncode(s[1..]);
      assert [s[0]] + s[1..] == s;
    }
  }

  /** `(hi * 64 + lo) // 64` and `% 64`, for a six-bit `lo`. */
  lemma Digits64(hi: int, lo: int)
    requires 0 <= lo < 64
    ensures (hi * 64 + lo) / 64 == hi && (hi * 64 + lo) % 64 == lo
  {
  }

  /** A three-byte sequence that decodes encodes back to those three bytes. */
  lemma DecodeThreeSound(bs: seq<byte>)
    requires |bs| > 0 && 0xE0 <= bs[0] < 0xF0 && DecodeChar(bs).Some?
    ensures EncodeChar(DecodeChar(bs).value.0) == bs[..3]
  {
    var b0, d1, d2 := bs[0] as int - 0xE0, bs[1] as int - 0x80, bs[2] as int - 0x80;
    var n := DecodeChar(bs).value.0 as int;
    var hi := b0 * 64 + d1;
    assert n == hi * 64 + d2;
    Digits64(hi, d2);
    Digits64(b0, d1);
    assert n / 4096 == b0 by {
      assert n / 4096 == (n / 64) / 64;
    }
    assert bs[..3] == [bs[0], bs[1], bs[2]];
  }

  /** A four-byte sequence that decodes encodes back to those four bytes. */
  lemma DecodeFourSound(bs: seq<byte>)
    requires |bs| > 0 && 0xF0 <= bs[0] && DecodeChar(bs).Some?
    ensures EncodeChar(DecodeChar(bs).value.0) == bs[..4]
  {
    var b0 := bs[0] as int - 0xF0;
    var d1, d2, d3 := bs[1] as int - 0x80, bs[2] as int - 0x80, bs[3] as int - 0x80;
    var n := DecodeChar(bs).value.0 as int;
    var hi1 := b0 * 64 + d1;
    var hi2 := hi1 * 64 + d2;
    assert n == hi2 * 64 + d3;
    Digits64(hi2, d3);
    Digits64(hi1, d2);
    Digits64(b0, d1);
    assert n / 4096 == hi1 by {
      assert n / 4096 == (n / 64) / 64;
    }
    assert n / 262144 == b0 by {
      assert n / 262144 == (n / 4096) / 64;
    }
    assert bs[..4] == [bs[0], bs[1], bs[2], bs[3]];
  }

  /** A decoded scalar value encodes back to exactly the bytes it was read from. */
  lemma DecodeCharSound(bs: seq<byte>)
    requires |bs| > 0 && DecodeChar(bs).Some?
    ensures EncodeChar(DecodeChar(bs).value.0) == bs[..DecodeChar(bs).value.1]
  {
    if bs[0] < 0x80 {
      assert bs[..1] == [bs[0]];
    } else if bs[0] < 0xE0 {
      Digits64(bs[0] as int - 0xC0, bs[1] as int - 0x80);
      assert bs[..2] == [bs[0], bs[1]];
    } else if bs[0] < 0xF0 {
      DecodeThreeSound(bs);
    } else {
      DecodeFourSound(bs);
    }
  }

  /** Gluing an encoded character in front of an encoded tail. */
  lemma EncodeCons(bs: seq<byte>, k: nat, c: char, rest: string)
    requires k <= |bs| && EncodeChar(c) == bs[..k] && Encode(rest) == bs[k..]
    ensures Encode([c] + rest) == bs
  {
    assert ([c] + rest)[1..] == rest;
    assert bs == bs[..k] + bs[k..];
  }

  /** Decoding succeeds only on bytes that are the encoding of the text it yields. */
  lemma {:induction false} DecodeSound(bs: seq<byte>)
    ensures Decode(bs).Some? ==> Encode(Decode(bs).value) == bs
    decreases |bs|
  {
    if bs != [] && Decode(bs).Some? {
      var c, k := DecodeChar(bs).value.0, DecodeChar(bs).value.1;
      DecodeCharSound(bs);
      DecodeSound(bs[k..]);
      EncodeCons(bs, k, c, Decode(bs[k..]).value);
    }
  }

  /**
   * `bytes.decode()` gives `s` exactly for the UTF-8 encoding of `s`:
   * every other byte string is rejected.
   */
  lemma DecodeIff(bs: seq<byte>, s: string)
    ensures Decode(bs) == Some(s) <==> bs == Encode(s)
  {
    DecodeSound(bs);
    DecodeEncode(s);
  }

  lemma {:induction false} EncodeAppend(a: string, b: string)
    ensures Encode(a + b) == Encode(a) + Encode(b)
  {
    if a != [] {
      assert (a + b)[1..] == a[1..] + b;
      EncodeAppend(a[1..], b);
    } else {
      assert a + b == b;
    }
  }

  /** The terminator byte occurs in an encoding exactly where `\n` occurs in the text. */
  lemma {:induction false} EncodeLF(s: string)
    ensures LF in Encode(s) <==> '\n' in s
  {
    if s != [] {
      EncodeLF(s[1..]);
      assert s == [s[0]] + s[1..];
      var e := EncodeChar(s[0]);
      assert LF in e <==> s[0] == '\n';
    }
  }

  /** A text of ASCII characters encodes byte for byte. */
  lemma {:induction false} EncodeAscii(s: string)
    requires forall i :: 0 <= i < |s| ==> s[i] as int < 0x80
    ensures |Encode(s)| == |s|
    ensures forall i :: 0 <= i < |s| ==> Encode(s)[i] as int == s[i] as int
  {
    if s != [] {
      EncodeAscii(s[1..]);
    }
  }
}
