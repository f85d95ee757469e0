/**
 * The byte view of a Rust `String`.
 *
 * A Rust `String` is a buffer of UTF-8 bytes, and `str::as_bytes` hands that
 * buffer out unchanged. A Dafny `string` is a sequence of Unicode scalar
 * values, so the byte view of a string is its UTF-8 encoding. This module
 * defines the encoding, a strict decoder, and proves that the two are exact
 * inverses: every string has exactly one byte view and distinct strings have
 * distinct byte views.
 */
module Utf8 {
  import opened Wrappers
  import opened Bytes

  /** A Unicode scalar value: a code point that is not a surrogate. */
  predicate IsScalar(x: int) {
    0 <= x < 0xD800 || 0xE000 <= x < 0x11_0000
  }

  /** The number of bytes UTF-8 spends on the code point `x`. */
  function Width(x: int): (n: nat)
    ensures 1 <= n <= 4
  {
    if x < 0x80 then 1
    else if x < 0x800 then 2
    else if x < 0x1_0000 then 3
    else 4
  }

  /** A continuation byte carries six payload bits under the tag `10`. */
  function Cont(bits: int): (b: uint8)
    requires 0 <= bits < 64
    ensures IsCont(b)
  {
    (0x80 + bits) as uint8
  }

  predicate IsCont(b: uint8) {
    0x80 <= b < 0xC0
  }

  /** The UTF-8 encoding of one scalar value, most significant bits first. */
  function EncodeChar(c: char): (bs: seq<uint8>)
    ensures |bs| == Width(c as int)
  {
    var x := c as int;
    if x < 0x80 then
      [x as uint8]
    else if x < 0x800 then
      [(0xC0 + x / 64) as uint8, Cont(x % 64)]
    else if x < 0x1_0000 then
      [(0xE0 + x / 64 / 64) as uint8, Cont(x / 64 % 64), Cont(x % 64)]
    else
      [(0xF0 + x / 64 / 64 / 64) as uint8, Cont(x / 64 / 64 % 64), Cont(x / 64 % 64), Cont(x % 64)]
  }

  /** The UTF-8 encoding of a string: the bytes `str::as_bytes` exposes. */
  function Encode(s: string): (bs: seq<uint8>)
    ensures |s| <= |bs| <= 4 * |s|
  {
    if s == [] then [] else EncodeChar(s[0]) + Encode(s[1..])
  }

  /** How many bytes the sequence starting with `b` occupies; 0 when `b` cannot start one. */
  function LeadWidth(b: uint8): (n: nat)
    ensures n <= 4
  {
    if b < 0x80 then 1
    else if b < 0xC0 then 0
    else if b < 0xE0 then 2
    else if b < 0xF0 then 3
    else if b < 0xF8 then 4
    else 0
  }

  /** The code point spelled by a lead byte of width `|bs|` and its continuation bytes. */
  function CodePoint(bs: seq<uint8>): (x: int)
    requires 1 <= |bs| <= 4
  {
    if |bs| == 1 then bs[0] as int
    else if |bs| == 2 then (bs[0] as int - 0xC0) * 64 + (bs[1] as int - 0x80)
    else if |bs| == 3 then ((bs[0] as int - 0xE0) * 64 + (bs[1] as int - 0x80)) * 64 + (bs[2] as int - 0x80)
    else (((bs[0] as int - 0xF0) * 64 + (bs[1] as int - 0x80)) * 64 + (bs[2] as int - 0x80)) * 64 + (bs[3] as int - 0x80)
  }

  /**
   * Decodes exactly one encoded scalar value. Rejects continuation bytes out
   * of place, surrogates, code points past U+10FFFF and overlong forms.
   */
  function DecodeChar(bs: seq<uint8>): (r: Option<char>)
  {
    if |bs| == 0 || LeadWidth(bs[0]) != |bs| then None
    else if exists i :: 1 <= i < |bs| && !IsCont(bs[i]) then None
    else
      var x := CodePoint(bs);
      if IsScalar(x) && Width(x) == |bs| then Some(x as char) else None
  }

  /** Decodes a whole byte sequence; `None` when it is not well-formed UTF-8. */
  function Decode(bs: seq<uint8>): (r: Option<string>)
    decreases |bs|
  {
    if bs == [] then Some([])
    else
      var n := LeadWidth(bs[0]);
      if n == 0 || |bs| < n then None
      else match DecodeChar(bs[..n])
        case None => None
        case Some(c) =>
          match Decode(bs[n..])
          case None => None
          case Some(rest) => Some([c] + rest)
  }

  /** Decoding the encoding of one scalar value gives it back. */
  lemma DecodeEncodeChar(c: char)
    ensures LeadWidth(EncodeChar(c)[0]) == |EncodeChar(c)|
    ensures DecodeChar(EncodeChar(c)) == Some(c)
  {
    var x := c as int;
    var bs := EncodeChar(c);
    assert CodePoint(bs) == x;
  }

  /** Splitting `q * 64 + r` back into its quotient and six-bit remainder. */
  lemma DivMod64(q: int, r: int)
    requires 0 <= r < 64
    ensures (q * 64 + r) / 64 == q
    ensures (q * 64 + r) % 64 == r
  {
  }

  /** A well-formed encoded scalar value is the encoding of what it decodes to. */
  lemma EncodeDecodeChar(bs: seq<uint8>, c: char)
    requires DecodeChar(bs) == Some(c)
    ensures EncodeChar(c) == bs
  {
    var x := CodePoint(bs);
    assert c as int == x;
    assert forall i :: 1 <= i < |bs| ==> IsCont(bs[i]);
    if |bs| == 2 {
      DivMod64(bs[0] as int - 0xC0, bs[1] as int - 0x80);
    } else if |bs| == 3 {
      var hi := (bs[0] as int - 0xE0) * 64 + (bs[1] as int - 0x80);
      DivMod64(hi, bs[2] as int - 0x80);
      DivMod64(bs[0] as int - 0xE0, bs[1] as int - 0x80);
    } else if |bs| == 4 {
      var top := (bs[0] as int - 0xF0) * 64 + (bs[1] as int - 0x80);
      var hi := top * 64 + (bs[2] as int - 0x80);
      DivMod64(hi, bs[3] as int - 0x80);
      DivMod64(top, bs[2] as int - 0x80);
      DivMod64(bs[0] as int - 0xF0, bs[1] as int - 0x80);
    }
  }

  /** Decoding undoes encoding. */
  lemma {:induction false} DecodeEncode(s: string)
    ensures Decode(Encode(s)) == Some(s)
  {
    if s != [] {
      var head := EncodeChar(s[0]);
      var bs := Encode(s);
      DecodeEncodeChar(s[0]);
      assert bs[..|head|] == head;
      assert bs[|head|..] == Encode(s[1..]);
      DecodeEncode(s[1..]);
      assert [s[0]] + s[1..] == s;
    }
  }

  /** Encoding undoes decoding: a byte sequence that decodes is the encoding of the result. */
  lemma {:induction false} EncodeDecode(bs: seq<uint8>, s: string)
    requires Decode(bs) == Some(s)
    ensures Encode(s) == bs
    decreases |bs|
  {
    if bs != [] {
      var n := LeadWidth(bs[0]);
      assert n != 0 && n <= |bs|;
      var c := DecodeChar(bs[..n]).value;
      var rest := Decode(bs[n..]).value;
      assert s == [c] + rest;
      EncodeDecodeChar(bs[..n], c);
      EncodeDecode(bs[n..], rest);
      assert s[0] == c && s[1..] == rest;
      calc {
        Encode(s);
        EncodeChar(c) + Encode(rest);
        bs[..n] + bs[n..];
        bs;
      }
    }
  }

  /** A byte sequence decodes to `s` exactly when it is the encoding of `s`. */
  lemma DecodeIffEncode(bs: seq<uint8>, s: string)
    ensures Decode(bs) == Some(s) <==> Encode(s) == bs
  {
    if Decode(bs) == Some(s) {
      EncodeDecode(bs, s);
    }
    if Encode(s) == bs {
      DecodeEncode(s);
    }
  }

  /** Distinct strings have distinct byte views. */
  lemma EncodeInjective(s: string, t: string)
    ensures Encode(s) == Encode(t) ==> s == t
  {
    DecodeEncode(s);
    DecodeEncode(t);
  }
}
