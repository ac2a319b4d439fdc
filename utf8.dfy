/**
 * UTF-8 well-formedness as `std::str::from_utf8` decides it: the byte
 * sequence syntax of section 4 of RFC 3629 (no overlong forms, no
 * surrogates, nothing above U+10FFFF), stated by the width of the
 * encoded character at the front and checked against an encoder of
 * Unicode scalar values.
 */
module Utf8 {
  import opened Common

  /** A continuation byte, `UTF8-tail` = %x80-BF. */
  predicate Tail(b: byte) {
    0x80 <= b <= 0xBF
  }

  /**
   * The width of the well-formed character that starts `bs`, or 0 when
   * no `UTF8-char` of the RFC 3629 grammar starts there.
   */
  function CharWidth(bs: seq<byte>): (n: nat)
    ensures n <= |bs| && n <= 4
    ensures |bs| > 0 && bs[0] < 0x80 ==> n == 1
    ensures |bs| > 0 && Tail(bs[0]) ==> n == 0
  {
    if |bs| == 0 then 0
    else
      var b0 := bs[0];
      if b0 <= 0x7F then 1
      else if 0xC2 <= b0 <= 0xDF then
        if |bs| >= 2 && Tail(bs[1]) then 2 else 0
      else if b0 == 0xE0 then
        if |bs| >= 3 && 0xA0 <= bs[1] <= 0xBF && Tail(bs[2]) then 3 else 0
      else if (0xE1 <= b0 <= 0xEC) || (0xEE <= b0 <= 0xEF) then
        if |bs| >= 3 && Tail(bs[1]) && Tail(bs[2]) then 3 else 0
      else if b0 == 0xED then
        if |bs| >= 3 && 0x80 <= bs[1] <= 0x9F && Tail(bs[2]) then 3 else 0
      else if b0 == 0xF0 then
        if |bs| >= 4 && 0x90 <= bs[1] <= 0xBF && Tail(bs[2]) && Tail(bs[3]) then 4 else 0
      else if 0xF1 <= b0 <= 0xF3 then
        if |bs| >= 4 && Tail(bs[1]) && Tail(bs[2]) && Tail(bs[3]) then 4 else 0
      else if b0 == 0xF4 then
        if |bs| >= 4 && 0x80 <= bs[1] <= 0x8F && Tail(bs[2]) && Tail(bs[3]) then 4 else 0
      else 0
  }

  /** `UTF8-octets = *( UTF8-char )`: the bytes split into well-formed characters. */
  predicate Valid(bs: seq<byte>)
    decreases |bs|
  {
    |bs| == 0 || (CharWidth(bs) > 0 && Valid(bs[CharWidth(bs)..]))
  }

  /** A Unicode scalar value: a code point that is not a surrogate. */
  predicate IsScalar(cp: int) {
    0 <= cp <= 0x10FFFF && !(0xD800 <= cp <= 0xDFFF)
  }

  /** The shortest UTF-8 form of a scalar value (section 3 of RFC 3629): 6 bits per continuation byte. */
  function EncodeScalar(cp: int): (bs: seq<byte>)
    requires IsScalar(cp)
    ensures 1 <= |bs| <= 4
  {
    var q1 := cp / 0x40;
    var q2 := q1 / 0x40;
    if cp < 0x80 then [cp]
    else if cp < 0x800 then [0xC0 + q1, 0x80 + cp % 0x40]
    else if cp < 0x10000 then [0xE0 + q2, 0x80 + q1 % 0x40, 0x80 + cp % 0x40]
    else [0xF0 + q2 / 0x40, 0x80 + q2 % 0x40, 0x80 + q1 % 0x40, 0x80 + cp % 0x40]
  }

  /** The payload bits of a continuation byte. */
  function Bits(b: byte): (v: int)
    ensures Tail(b) ==> 0 <= v < 0x40
  {
    b as int - 0x80
  }

  /** The scalar value of the character that starts `bs`. */
  function DecodeChar(bs: seq<byte>): (cp: int)
    requires CharWidth(bs) > 0
  {
    var n := CharWidth(bs);
    if n == 1 then bs[0]
    else if n == 2 then (bs[0] as int - 0xC0) * 0x40 + Bits(bs[1])
    else if n == 3 then ((bs[0] as int - 0xE0) * 0x40 + Bits(bs[1])) * 0x40 + Bits(bs[2])
    else (((bs[0] as int - 0xF0) * 0x40 + Bits(bs[1])) * 0x40 + Bits(bs[2])) * 0x40 + Bits(bs[3])
  }

  /** Splitting off six low bits and putting them back. */
  lemma Bits6(q: int, r: int)
    requires 0 <= r < 0x40
    ensures (q * 0x40 + r) / 0x40 == q && (q * 0x40 + r) % 0x40 == r
  {
  }

  /**
   * The encoding of a scalar value is one well-formed character, whatever
   * follows it, and it decodes back to that value.
   */
  lemma EncodeDecodeChar(cp: int, rest: seq<byte>)
    requires IsScalar(cp)
    ensures CharWidth(EncodeScalar(cp) + rest) == |EncodeScalar(cp)|
    ensures DecodeChar(EncodeScalar(cp) + rest) == cp
  {
    var e := EncodeScalar(cp);
    var bs := e + rest;
    var q1 := cp / 0x40;
    var q2 := q1 / 0x40;
    assert cp == q1 * 0x40 + cp % 0x40;
    assert q1 == q2 * 0x40 + q1 % 0x40;
    if cp < 0x80 {
      assert bs[0] == e[0];
    } else if cp < 0x800 {
      assert bs[0] == e[0] && bs[1] == e[1];
    } else if cp < 0x10000 {
      assert bs[0] == e[0] && bs[1] == e[1] && bs[2] == e[2];
    } else {
      assert q2 == q2 / 0x40 * 0x40 + q2 % 0x40;
      assert bs[0] == e[0] && bs[1] == e[1] && bs[2] == e[2] && bs[3] == e[3];
    }
  }

  /**
   * Every well-formed character is the shortest encoding of a scalar
   * value: decoding it gives a scalar value whose encoding is exactly the
   * bytes decoded (the grammar admits no overlong form and no surrogate).
   */
  lemma DecodeEncodeChar(bs: seq<byte>)
    requires CharWidth(bs) > 0
    ensures IsScalar(DecodeChar(bs))
    ensures EncodeScalar(DecodeChar(bs)) == bs[..CharWidth(bs)]
  {
    var n := CharWidth(bs);
    var cp := DecodeChar(bs);
    if n == 2 {
      Bits6(bs[0] as int - 0xC0, Bits(bs[1]));
    } else if n == 3 {
      var q1 := (bs[0] as int - 0xE0) * 0x40 + Bits(bs[1]);
      Bits6(q1, Bits(bs[2]));
      Bits6(bs[0] as int - 0xE0, Bits(bs[1]));
    } else if n == 4 {
      var q2 := (bs[0] as int - 0xF0) * 0x40 + Bits(bs[1]);
      var q1 := q2 * 0x40 + Bits(bs[2]);
      Bits6(q1, Bits(bs[3]));
      Bits6(q2, Bits(bs[2]));
      Bits6(bs[0] as int - 0xF0, Bits(bs[1]));
    }
  }

  /** The encodings of a sequence of scalar values, back to back. */
  function Encode(cps: seq<int>): (bs: seq<byte>)
    requires forall i :: 0 <= i < |cps| ==> IsScalar(cps[i])
  {
    if cps == [] then [] else EncodeScalar(cps[0]) + Encode(cps[1..])
  }

  /** The scalar values of well-formed bytes. */
  function Decode(bs: seq<byte>): (cps: seq<int>)
    requires Valid(bs)
    ensures forall i :: 0 <= i < |cps| ==> IsScalar(cps[i])
    ensures |cps| <= |bs|
    decreases |bs|
  {
    if |bs| == 0 then []
    else
      DecodeEncodeChar(bs);
      [DecodeChar(bs)] + Decode(bs[CharWidth(bs)..])
  }

  /** The encoding of any scalar values is well-formed and decodes back to them. */
  lemma {:induction false} EncodeValid(cps: seq<int>)
    requires forall i :: 0 <= i < |cps| ==> IsScalar(cps[i])
    ensures Valid(Encode(cps))
    ensures Decode(Encode(cps)) == cps
    decreases |cps|
  {
    if cps != [] {
      var e := EncodeScalar(cps[0]);
      var rest := Encode(cps[1..]);
      EncodeDecodeChar(cps[0], rest);
      assert (e + rest)[|e|..] == rest;
      EncodeValid(cps[1..]);
    }
  }

  /** Well-formed bytes are the encoding of their scalar values. */
  lemma {:induction false} DecodeValid(bs: seq<byte>)
    requires Valid(bs)
    ensures Encode(Decode(bs)) == bs
    decreases |bs|
  {
    if |bs| > 0 {
      var n := CharWidth(bs);
      var tail := Decode(bs[n..]);
      DecodeValid(bs[n..]);
      FrontRoundTrip(bs);
      EncodeCons(DecodeChar(bs), tail);
    }
  }

  /** The first character of well-formed bytes, decoded and encoded again, followed by the rest. */
  lemma FrontRoundTrip(bs: seq<byte>)
    requires CharWidth(bs) > 0
    ensures IsScalar(DecodeChar(bs))
    ensures EncodeScalar(DecodeChar(bs)) + bs[CharWidth(bs)..] == bs
  {
    DecodeEncodeChar(bs);
    assert bs[..CharWidth(bs)] + bs[CharWidth(bs)..] == bs;
  }

  lemma EncodeCons(cp: int, cps: seq<int>)
    requires IsScalar(cp) && forall i :: 0 <= i < |cps| ==> IsScalar(cps[i])
    ensures Encode([cp] + cps) == EncodeScalar(cp) + Encode(cps)
  {
    assert ([cp] + cps)[1..] == cps;
  }

  /** Bytes below 0x80 (ASCII text) are well-formed. */
  lemma {:induction false} AsciiValid(bs: seq<byte>)
    requires forall i :: 0 <= i < |bs| ==> bs[i] < 0x80
    ensures Valid(bs)
    decreases |bs|
  {
    if |bs| > 0 {
      AsciiValid(bs[1..]);
    }
  }

  /** A byte that can only continue a character never starts well-formed bytes. */
  lemma LeadingTailInvalid(bs: seq<byte>)
    requires |bs| > 0 && Tail(bs[0])
    ensures !Valid(bs)
  {
  }
}
