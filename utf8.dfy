/**
 * UTF-8 (RFC 3629), as used by `codecs.encode(text, 'utf-8')` to turn a text
 * secret key or a session id into bytes. A Dafny `char` is a Unicode scalar
 * value, so every string is encodable.
 */
module Utf8 {
  import opened Bytes

  /** The one to four bytes that encode the scalar value of `c`. */
  function EncodeChar(c: char): (r: seq<byte>)
    ensures 1 <= |r| <= 4 && |r| == SequenceLength(r[0])
    ensures forall i :: 1 <= i < |r| ==> 0x80 <= r[i] < 0xC0
  {
    var v := c as int;
    if v < 0x80 then [v]
    else if v < 0x800 then [0xC0 + v / 64, 0x80 + v % 64]
    else if v < 0x10000 then [0xE0 + v / 4096, 0x80 + v / 64 % 64, 0x80 + v % 64]
    else [0xF0 + v / 262144, 0x80 + v / 4096 % 64, 0x80 + v / 64 % 64, 0x80 + v % 64]
  }

  /** The UTF-8 encoding of a string: its characters' encodings, in order. */
  function Encode(s: string): (r: seq<byte>)
    ensures |s| <= |r| <= 4 * |s|
  {
    if s == [] then [] else EncodeChar(s[0]) + Encode(s[1..])
  }

  /** How many bytes a sequence starting with `lead` occupies; 0 for a byte no sequence starts with. */
  function SequenceLength(lead: byte): nat {
    if lead < 0x80 then 1
    else if 0xC0 <= lead < 0xE0 then 2
    else if 0xE0 <= lead < 0xF0 then 3
    else if 0xF0 <= lead < 0xF8 then 4
    else 0
  }

  /** The scalar value carried by one complete sequence (lead byte and continuation bytes). */
  function ScalarOf(b: seq<byte>): int
    requires 1 <= |b| <= 4
  {
    if |b| == 1 then b[0] as int
    else if |b| == 2 then (b[0] as int - 0xC0) * 64 + (b[1] as int - 0x80)
    else if |b| == 3 then (b[0] as int - 0xE0) * 4096 + (b[1] as int - 0x80) * 64 + (b[2] as int - 0x80)
    else (b[0] as int - 0xF0) * 262144 + (b[1] as int - 0x80) * 4096 + (b[2] as int - 0x80) * 64 + (b[3] as int - 0x80)
  }

  /** The least scalar value that needs `n` bytes; a shorter form is overlong and rejected. */
  function MinScalar(n: nat): int {
    if n <= 1 then 0 else if n == 2 then 0x80 else if n == 3 then 0x800 else 0x10000
  }

  /** Strict UTF-8 decoding: None for a truncated, overlong, surrogate or out-of-range sequence. */
  function Decode(b: seq<byte>): (r: Option<string>)
    decreases |b|
  {
    if b == [] then Some([])
    else
      var n := SequenceLength(b[0]);
      if n == 0 || n > |b| then None
      else if exists i :: 1 <= i < n && !(0x80 <= b[i] < 0xC0) then None
      else
        var v := ScalarOf(b[..n]);
        if v < MinScalar(n) || 0xD800 <= v < 0xE000 || 0x110000 <= v then None
        else match Decode(b[n..])
          case None => None
          case Some(rest) => Some([v as char] + rest)
  }

  /** The scalar value survives the encoding of a single character. */
  lemma ScalarOfEncodeChar(c: char)
    ensures ScalarOf(EncodeChar(c)) == c as int
    ensures c as int >= MinScalar(|EncodeChar(c)|)
  {
    var v := c as int;
    if v < 0x80 {
    } else if v < 0x800 {
      assert v == v / 64 * 64 + v % 64;
    } else if v < 0x10000 {
      assert v / 64 == v / 4096 * 64 + v / 64 % 64;
      assert v == v / 64 * 64 + v % 64;
    } else {
      assert v / 4096 == v / 262144 * 64 + v / 4096 % 64;
      assert v / 64 == v / 4096 * 64 + v / 64 % 64;
      assert v == v / 64 * 64 + v % 64;
    }
  }

  /** Decoding an encoded character followed by decodable bytes. */
  lemma DecodeEncodedChar(c: char, t: seq<byte>, rest: string)
    requires Decode(t) == Some(rest)
    ensures Decode(EncodeChar(c) + t) == Some([c] + rest)
  {
    var e := EncodeChar(c);
    var b := e + t;
    var n := |e|;
    assert b[0] == e[0];
    assert b[..n] == e && b[n..] == t;
    ScalarOfEncodeChar(c);
    assert !exists i :: 1 <= i < n && !(0x80 <= b[i] < 0xC0) by {
      forall i | 1 <= i < n ensures 0x80 <= b[i] < 0xC0 {
        assert b[i] == e[i];
      }
    }
  }

  /** Decoding undoes encoding: UTF-8 encoding loses nothing and is injective. */
  lemma {:induction false} DecodeEncode(s: string)
    ensures Decode(Encode(s)) == Some(s)
  {
    if s != [] {
      DecodeEncode(s[1..]);
      DecodeEncodedChar(s[0], Encode(s[1..]), s[1..]);
      assert [s[0]] + s[1..] == s;
    }
  }

  /** Two strings with the same encoding are the same string. */
  lemma EncodeInjective(s: string, t: string)
    requires Encode(s) == Encode(t)
    ensures s == t
  {
    DecodeEncode(s);
    DecodeEncode(t);
  }

  /** An ASCII string encodes to its code points, one byte each. */
  lemma {:induction false} EncodeAscii(s: string)
    requires AllAscii(s)
    ensures |Encode(s)| == |s|
    ensures forall i :: 0 <= i < |s| ==> Encode(s)[i] == s[i] as int
  {
    if s != [] {
      assert AllAscii(s[1..]) by {
        forall i | 0 <= i < |s| - 1 ensures IsAscii(s[1..][i]) {
          assert s[1..][i] == s[i + 1];
        }
      }
      EncodeAscii(s[1..]);
      assert IsAscii(s[0]);
    }
  }
}
