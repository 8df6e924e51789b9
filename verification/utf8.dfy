/** UTF-8, the encoding the form serializer applies to every name and value
    before percent-encoding. Characters here are Unicode scalar values, so
    every string has an encoding. */
module Utf8 {
  import opened Wrappers

  type Byte = b: int | 0 <= b < 256

  predicate IsContinuation(b: Byte) {
    0x80 <= b < 0xC0
  }

  /** Number of bytes a sequence starting with lead byte `b` occupies;
      0 when `b` cannot start a sequence. */
  function SequenceLength(b: Byte): nat {
    if b < 0x80 then 1
    else if 0xC0 <= b < 0xE0 then 2
    else if 0xE0 <= b < 0xF0 then 3
    else if 0xF0 <= b < 0xF8 then 4
    else 0
  }

  /** The UTF-8 encoding of one scalar value. */
  function EncodeChar(c: char): (bs: seq<Byte>)
    ensures 1 <= |bs| <= 4
    ensures SequenceLength(bs[0]) == |bs|
    ensures forall k :: 1 <= k < |bs| ==> IsContinuation(bs[k])
    ensures (c as int < 0x80) <==> bs == [c as int]
  {
    var cp := c as int;
    if cp < 0x80 then [cp]
    else if cp < 0x800 then [0xC0 + cp / 64, 0x80 + cp % 64]
    else if cp < 0x10000 then [0xE0 + cp / 4096, 0x80 + (cp / 64) % 64, 0x80 + cp % 64]
    else [0xF0 + cp / 262144, 0x80 + (cp / 4096) % 64, 0x80 + (cp / 64) % 64, 0x80 + cp % 64]
  }

  /** The UTF-8 encoding of a string, character by character; the strict
      decoder reads the string back. */
  function Encode(s: string): (bs: seq<Byte>)
    ensures |bs| >= |s|
    ensures Decode(bs) == Some(s)
    decreases |s|
  {
    if |s| == 0 then []
    else
      var head := EncodeChar(s[0]);
      var tail := Encode(s[1..]);
      CodePointOfEncodeChar(s[0]);
      assert (head + tail)[..|head|] == head;
      assert (head + tail)[|head|..] == tail;
      assert [s[0]] + s[1..] == s;
      head + tail
  }

  /** The scalar value a well-formed sequence of 1 to 4 bytes stands for. */
  function CodePoint(bs: seq<Byte>): int
    requires 1 <= |bs| <= 4
  {
    if |bs| == 1 then bs[0]
    else if |bs| == 2 then (bs[0] as int - 0xC0) * 64 + (bs[1] as int - 0x80)
    else if |bs| == 3 then (bs[0] as int - 0xE0) * 4096 + (bs[1] as int - 0x80) * 64 + (bs[2] as int - 0x80)
    else (bs[0] as int - 0xF0) * 262144 + (bs[1] as int - 0x80) * 4096 + (bs[2] as int - 0x80) * 64 + (bs[3] as int - 0x80)
  }

  predicate IsScalar(cp: int) {
    0 <= cp < 0xD800 || 0xE000 <= cp < 0x11_0000
  }

  /** Whether `n` bytes is the shortest form for `cp`: a longer sequence
      than needed (an overlong form) is not UTF-8. */
  predicate IsShortest(cp: int, n: nat) {
    || n == 1
    || (n == 2 && cp >= 0x80)
    || (n == 3 && cp >= 0x800)
    || (n == 4 && cp >= 0x1_0000)
  }

  /** Strict decoder: the partner of Encode. Fails on a byte that cannot
      start a sequence, a missing continuation byte, an overlong form, or a
      surrogate. */
  function Decode(bs: seq<Byte>): Option<string>
    decreases |bs|
  {
    if |bs| == 0 then Some([])
    else
      var n := SequenceLength(bs[0]);
      if n == 0 || n > |bs| || exists k :: 1 <= k < n && !IsContinuation(bs[k]) then None
      else
        var cp := CodePoint(bs[..n]);
        if !IsScalar(cp) || !IsShortest(cp, n) then None
        else
          match Decode(bs[n..])
          case None => None
          case Some(rest) => Some([cp as char] + rest)
  }

  lemma ThreeDigitsBase64(cp: int)
    requires 0 <= cp
    ensures cp == (cp / 4096) * 4096 + ((cp / 64) % 64) * 64 + cp % 64
  {
    assert cp / 64 / 64 == cp / 4096;
  }

  lemma FourDigitsBase64(cp: int)
    requires 0 <= cp
    ensures cp == (cp / 262144) * 262144 + ((cp / 4096) % 64) * 4096 + ((cp / 64) % 64) * 64 + cp % 64
  {
    assert cp / 4096 / 64 == cp / 262144;
    ThreeDigitsBase64(cp);
  }

  /** One encoded character decodes back to itself. */
  lemma CodePointOfEncodeChar(c: char)
    ensures CodePoint(EncodeChar(c)) == c as int
    ensures IsShortest(c as int, |EncodeChar(c)|)
  {
    var cp := c as int;
    if cp < 0x80 {
    } else if cp < 0x800 {
    } else if cp < 0x10000 {
      ThreeDigitsBase64(cp);
    } else {
      FourDigitsBase64(cp);
    }
  }

  lemma {:induction false} EncodeConcat(a: string, b: string)
    ensures Encode(a + b) == Encode(a) + Encode(b)
    decreases |a|
  {
    if |a| > 0 {
      assert (a + b)[0] == a[0];
      assert (a + b)[1..] == a[1..] + b;
      EncodeConcat(a[1..], b);
      assert Encode(a + b) == EncodeChar(a[0]) + (Encode(a[1..]) + Encode(b));
    } else {
      assert a + b == b;
    }
  }

  /** Splitting off the last six bits of `q * 64 + r`. */
  lemma SixBits(q: int, r: int)
    requires 0 <= q && 0 <= r < 64
    ensures (q * 64 + r) / 64 == q && (q * 64 + r) % 64 == r
  {
  }

  /** A well-formed shortest sequence for a scalar value is that value's
      encoding. */
  lemma EncodeCharOfSequence(bs: seq<Byte>)
    requires 1 <= |bs| <= 4 && SequenceLength(bs[0]) == |bs|
    requires forall k :: 1 <= k < |bs| ==> IsContinuation(bs[k])
    requires IsScalar(CodePoint(bs)) && IsShortest(CodePoint(bs), |bs|)
    ensures EncodeChar(CodePoint(bs) as char) == bs
  {
    if |bs| == 2 {
      EncodeTwo(bs[0], bs[1]);
      assert bs == [bs[0], bs[1]];
    } else if |bs| == 3 {
      EncodeThree(bs[0], bs[1], bs[2]);
      assert bs == [bs[0], bs[1], bs[2]];
    } else if |bs| == 4 {
      EncodeFour(bs[0], bs[1], bs[2], bs[3]);
      assert bs == [bs[0], bs[1], bs[2], bs[3]];
    }
  }

  lemma EncodeTwo(b0: Byte, b1: Byte)
    requires 0xC0 <= b0 < 0xE0 && IsContinuation(b1)
    requires CodePoint([b0, b1]) >= 0x80
    ensures IsScalar(CodePoint([b0, b1]))
    ensures EncodeChar(CodePoint([b0, b1]) as char) == [b0, b1]
  {
    var cp: int := CodePoint([b0, b1]);
    assert cp == (b0 as int - 0xC0) * 64 + (b1 as int - 0x80);
    SixBits(b0 as int - 0xC0, b1 as int - 0x80);
  }

  lemma EncodeThree(b0: Byte, b1: Byte, b2: Byte)
    requires 0xE0 <= b0 < 0xF0 && IsContinuation(b1) && IsContinuation(b2)
    requires IsScalar(CodePoint([b0, b1, b2])) && CodePoint([b0, b1, b2]) >= 0x800
    ensures EncodeChar(CodePoint([b0, b1, b2]) as char) == [b0, b1, b2]
  {
    var cp: int := CodePoint([b0, b1, b2]);
    var hi: int := (b0 as int - 0xE0) * 64 + (b1 as int - 0x80);
    assert cp == hi * 64 + (b2 as int - 0x80);
    SixBits(hi, b2 as int - 0x80);
    SixBits(b0 as int - 0xE0, b1 as int - 0x80);
    assert cp / 4096 == cp / 64 / 64;
  }

  lemma EncodeFour(b0: Byte, b1: Byte, b2: Byte, b3: Byte)
    requires 0xF0 <= b0 < 0xF8 && IsContinuation(b1) && IsContinuation(b2) && IsContinuation(b3)
    requires IsScalar(CodePoint([b0, b1, b2, b3])) && CodePoint([b0, b1, b2, b3]) >= 0x1_0000
    ensures EncodeChar(CodePoint([b0, b1, b2, b3]) as char) == [b0, b1, b2, b3]
  {
    var cp: int := CodePoint([b0, b1, b2, b3]);
    var mid: int := (b0 as int - 0xF0) * 64 + (b1 as int - 0x80);
    var hi: int := mid * 64 + (b2 as int - 0x80);
    assert cp == hi * 64 + (b3 as int - 0x80);
    SixBits(hi, b3 as int - 0x80);
    SixBits(mid, b2 as int - 0x80);
    SixBits(b0 as int - 0xF0, b1 as int - 0x80);
    assert cp / 4096 == cp / 64 / 64;
    assert cp / 262144 == cp / 4096 / 64;
  }

  /** The decoder accepts only canonical UTF-8: bytes that decode to a
      string are exactly that string's encoding. */
  lemma {:induction false} DecodeIsEncode(bs: seq<Byte>)
    requires Decode(bs).Some?
    ensures Encode(Decode(bs).value) == bs
    decreases |bs|
  {
    if |bs| > 0 {
      var n := SequenceLength(bs[0]);
      var head, rest := bs[..n], bs[n..];
      var cp := CodePoint(head);
      var t := Decode(rest).value;
      assert Decode(bs) == Some([cp as char] + t);
      EncodeCharOfSequence(head);
      DecodeIsEncode(rest);
      var s := [cp as char] + t;
      assert s[0] == cp as char && s[1..] == t;
      assert Encode(s) == EncodeChar(cp as char) + Encode(t);
      assert bs == head + rest;
    }
  }
}
