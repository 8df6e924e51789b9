/** The application/x-www-form-urlencoded serializer of section 5.2 of the
    WHATWG URL Standard, which `URLSearchParams.prototype.toString` uses:
    each name and value is UTF-8 encoded, then every byte outside ASCII
    alphanumerics and `*-._` is percent-encoded with upper-case hex digits,
    except the space byte, which becomes `+`; pairs are written `name=value`
    and joined with `&`. `Parse` is a strict inverse used to state what a
    serialized query carries. */
module FormUrlEncoded {
  import opened Wrappers
  import Text
  import Utf8

  datatype Pair = Pair(name: string, value: string)

  /** Bytes left as themselves: the complement of the
      application/x-www-form-urlencoded percent-encode set. */
  predicate IsPlain(b: int) {
    || 0x30 <= b <= 0x39
    || 0x41 <= b <= 0x5A
    || 0x61 <= b <= 0x7A
    || b == 0x2A || b == 0x2D || b == 0x2E || b == 0x5F
  }

  /** Characters an encoded name or value can contain. */
  predicate IsEncodedChar(c: char) {
    IsPlain(c as int) || c == '+' || c == '%'
  }

  function HexDigit(d: int): (c: char)
    requires 0 <= d < 16
    ensures IsPlain(c as int)
  {
    if d < 10 then ('0' as int + d) as char else ('A' as int + d - 10) as char
  }

  predicate IsHexDigit(c: char) {
    '0' <= c <= '9' || 'A' <= c <= 'F' || 'a' <= c <= 'f'
  }

  function HexValue(c: char): (d: int)
    requires IsHexDigit(c)
    ensures 0 <= d < 16
  {
    if '0' <= c <= '9' then c as int - '0' as int
    else if 'A' <= c <= 'F' then c as int - 'A' as int + 10
    else c as int - 'a' as int + 10
  }

  function EncodeByte(b: Utf8.Byte): (s: string)
    ensures 1 <= |s| <= 3
  {
    if b == 0x20 then "+"
    else if IsPlain(b) then [b as char]
    else ['%', HexDigit(b / 16), HexDigit(b % 16)]
  }

  function EncodeBytes(bs: seq<Utf8.Byte>): string
    decreases |bs|
  {
    if |bs| == 0 then "" else EncodeByte(bs[0]) + EncodeBytes(bs[1..])
  }

  /** Percent-encode after encoding, with UTF-8, the
      application/x-www-form-urlencoded percent-encode set and space as plus. */
  function Encode(s: string): (r: string)
    ensures |r| >= |s|
    ensures Decode(r) == Some(s)
  {
    EncodeBytesLength(Utf8.Encode(s));
    DecodeEncodeBytes(Utf8.Encode(s));
    EncodeBytes(Utf8.Encode(s))
  }

  lemma {:induction false} EncodeBytesAlphabet(bs: seq<Utf8.Byte>)
    ensures forall i :: 0 <= i < |EncodeBytes(bs)| ==> IsEncodedChar(EncodeBytes(bs)[i])
    decreases |bs|
  {
    if |bs| > 0 {
      EncodeBytesAlphabet(bs[1..]);
      var e := EncodeByte(bs[0]);
      assert forall i :: 0 <= i < |e| ==> IsEncodedChar(e[i]);
    }
  }

  /** Encoded text holds only plain characters, `+` and `%`: never a
      separator such as `&`, `=` or `?`. */
  lemma EncodeAlphabet(s: string)
    ensures forall i :: 0 <= i < |Encode(s)| ==> IsEncodedChar(Encode(s)[i])
  {
    EncodeBytesAlphabet(Utf8.Encode(s));
  }

  lemma {:induction false} EncodeBytesLength(bs: seq<Utf8.Byte>)
    ensures |EncodeBytes(bs)| >= |bs|
    decreases |bs|
  {
    if |bs| > 0 {
      EncodeBytesLength(bs[1..]);
    }
  }

  /** The byte the encoded text starts with and how many characters it
      takes: `+` is a space, `%` must be followed by two hex digits, anything
      else must be a plain byte. */
  function DecodeStep(s: string): (r: Option<(Utf8.Byte, nat)>)
    requires |s| > 0
    ensures r.Some? ==> 1 <= r.value.1 <= |s|
  {
    if s[0] == '+' then Some((0x20, 1))
    else if s[0] == '%' && |s| >= 3 && IsHexDigit(s[1]) && IsHexDigit(s[2]) then
      Some((HexValue(s[1]) * 16 + HexValue(s[2]), 3))
    else if IsPlain(s[0] as int) then Some((s[0] as int, 1))
    else None
  }

  /** Strict byte decoder for encoded text. */
  function DecodeBytes(s: string): Option<seq<Utf8.Byte>>
    decreases |s|
  {
    if |s| == 0 then Some([])
    else
      match DecodeStep(s)
      case None => None
      case Some(step) =>
        match DecodeBytes(s[step.1..])
        case None => None
        case Some(rest) => Some([step.0] + rest)
  }

  function Decode(s: string): Option<string> {
    match DecodeBytes(s)
    case None => None
    case Some(bs) => Utf8.Decode(bs)
  }

  lemma DecodeEncodeByte(b: Utf8.Byte, tail: string)
    ensures DecodeBytes(EncodeByte(b) + tail) ==
      match DecodeBytes(tail)
      case None => None
      case Some(rest) => Some([b] + rest)
  {
    var s := EncodeByte(b) + tail;
    assert s[|EncodeByte(b)|..] == tail;
    if b != 0x20 && !IsPlain(b) {
      assert HexValue(HexDigit(b / 16)) == b / 16;
      assert HexValue(HexDigit(b % 16)) == b % 16;
    }
  }

  lemma {:induction false} DecodeEncodeBytes(bs: seq<Utf8.Byte>)
    ensures DecodeBytes(EncodeBytes(bs)) == Some(bs)
    decreases |bs|
  {
    if |bs| > 0 {
      DecodeEncodeByte(bs[0], EncodeBytes(bs[1..]));
      DecodeEncodeBytes(bs[1..]);
      assert [bs[0]] + bs[1..] == bs;
    }
  }

  /** Text made only of plain ASCII characters is its own encoding. */
  lemma {:induction false} EncodePlain(s: string)
    requires forall i :: 0 <= i < |s| ==> IsPlain(s[i] as int)
    ensures Encode(s) == s
    decreases |s|
  {
    if |s| > 0 {
      EncodePlain(s[1..]);
      assert Utf8.Encode(s) == [s[0] as int] + Utf8.Encode(s[1..]);
      assert [s[0]] + s[1..] == s;
    }
  }

  lemma {:induction false} EncodeBytesConcat(x: seq<Utf8.Byte>, y: seq<Utf8.Byte>)
    ensures EncodeBytes(x + y) == EncodeBytes(x) + EncodeBytes(y)
    decreases |x|
  {
    if |x| > 0 {
      assert (x + y)[0] == x[0];
      assert (x + y)[1..] == x[1..] + y;
      EncodeBytesConcat(x[1..], y);
      assert EncodeBytes(x + y) == EncodeByte(x[0]) + (EncodeBytes(x[1..]) + EncodeBytes(y));
    } else {
      assert x + y == y;
    }
  }

  /** Encoding works character by character, so it distributes over concatenation. */
  lemma EncodeConcat(a: string, b: string)
    ensures Encode(a + b) == Encode(a) + Encode(b)
  {
    Utf8.EncodeConcat(a, b);
    EncodeBytesConcat(Utf8.Encode(a), Utf8.Encode(b));
  }

  /** One ASCII character of the percent-encode set encodes as `%` and its two hex digits. */
  lemma EncodeEscaped(c: char)
    requires c as int < 0x80 && c != ' ' && !IsPlain(c as int)
    ensures Encode([c]) == ['%', HexDigit(c as int / 16), HexDigit(c as int % 16)]
  {
    assert [c][1..] == "";
    assert Utf8.Encode([c]) == [c as int];
    var b: Utf8.Byte := c as int;
    assert [b][1..] == [];
    assert EncodeBytes([b]) == EncodeByte(b);
  }

  /** A space is sent as `+`, not as `%20`, wherever it occurs. */
  lemma EncodeSpace(a: string, b: string)
    ensures Encode(" ") == "+"
    ensures Encode(a + " " + b) == Encode(a) + "+" + Encode(b)
  {
    assert " "[1..] == "";
    assert Utf8.Encode(" ") == [0x20];
    var sp: Utf8.Byte := 0x20;
    assert [sp][1..] == [];
    assert EncodeBytes([sp]) == EncodeByte(sp);
    EncodeConcat(a + " ", b);
    EncodeConcat(a, " ");
  }

  function SerializePair(p: Pair): (s: string)
    ensures |s| > 0
  {
    Encode(p.name) + "=" + Encode(p.value)
  }

  /** The serializer: encoded pairs in the given order, joined with `&`.
      Nothing is lost: the parser gives back the same names and values in
      the same order. */
  function Serialize(ps: seq<Pair>): (s: string)
    ensures |ps| > 0 ==> |s| > 0
    ensures Parse(s) == Some(ps)
    decreases |ps|
  {
    if |ps| == 0 then ""
    else if |ps| == 1 then
      ParseSingle(ps[0]);
      assert ps == [ps[0]];
      SerializePair(ps[0])
    else
      var tail := Serialize(ps[1..]);
      ParseJoin(ps[0], tail, ps[1..]);
      assert [ps[0]] + ps[1..] == ps;
      SerializePair(ps[0]) + "&" + tail
  }

  function ParsePair(s: string): Option<Pair> {
    match Text.IndexOf(s, '=')
    case None => None
    case Some(i) =>
      match (Decode(s[..i]), Decode(s[i + 1..]))
      case (Some(n), Some(v)) => Some(Pair(n, v))
      case _ => None
  }

  /** Strict parser: the partner of Serialize. */
  function Parse(s: string): Option<seq<Pair>>
    decreases |s|
  {
    if |s| == 0 then Some([])
    else
      match Text.IndexOf(s, '&')
      case None =>
        (match ParsePair(s)
         case None => None
         case Some(p) => Some([p]))
      case Some(i) =>
        match (ParsePair(s[..i]), Parse(s[i + 1..]))
        case (Some(p), Some(rest)) => Some([p] + rest)
        case _ => None
  }

  lemma ParseSerializePair(p: Pair)
    ensures ParsePair(SerializePair(p)) == Some(p)
  {
    var n := Encode(p.name);
    var v := Encode(p.value);
    EncodeAlphabet(p.name);
    assert '=' !in n;
    Text.IndexOfAfterPrefix(n, '=', v);
    var s := n + "=" + v;
    assert s[..|n|] == n;
    assert s[|n| + 1..] == v;
  }

  lemma SerializePairAlphabet(p: Pair)
    ensures forall i :: 0 <= i < |SerializePair(p)| ==>
      IsEncodedChar(SerializePair(p)[i]) || SerializePair(p)[i] == '='
  {
    EncodeAlphabet(p.name);
    EncodeAlphabet(p.value);
  }

  /** A serialized pair never contains the pair separator. */
  lemma PairHasNoAmpersand(p: Pair)
    ensures '&' !in SerializePair(p)
  {
    SerializePairAlphabet(p);
  }

  lemma ParseSingle(p: Pair)
    ensures Parse(SerializePair(p)) == Some([p])
  {
    PairHasNoAmpersand(p);
    ParseSerializePair(p);
  }

  /** Parsing splits at the first `&` when the text before it holds none. */
  lemma ParseAtSeparator(head: string, tail: string, p: Pair, rest: seq<Pair>)
    requires '&' !in head
    requires ParsePair(head) == Some(p) && Parse(tail) == Some(rest)
    ensures Parse(head + "&" + tail) == Some([p] + rest)
  {
    Text.IndexOfAfterPrefix(head, '&', tail);
  }

  lemma ParseJoin(p: Pair, tail: string, rest: seq<Pair>)
    requires Parse(tail) == Some(rest)
    ensures Parse(SerializePair(p) + "&" + tail) == Some([p] + rest)
  {
    PairHasNoAmpersand(p);
    ParseSerializePair(p);
    ParseAtSeparator(SerializePair(p), tail, p, rest);
  }

  /** A serialized query uses only encoded characters and the two separators. */
  lemma {:induction false} SerializeAlphabet(ps: seq<Pair>)
    ensures forall i :: 0 <= i < |Serialize(ps)| ==>
      IsEncodedChar(Serialize(ps)[i]) || Serialize(ps)[i] == '=' || Serialize(ps)[i] == '&'
    decreases |ps|
  {
    if |ps| == 1 {
      SerializePairAlphabet(ps[0]);
    } else if |ps| > 1 {
      SerializePairAlphabet(ps[0]);
      SerializeAlphabet(ps[1..]);
      JoinAlphabet(SerializePair(ps[0]), Serialize(ps[1..]));
    }
  }

  /** Joining two texts of the query alphabet with `&` stays in it. */
  lemma JoinAlphabet(a: string, b: string)
    requires forall i :: 0 <= i < |a| ==> IsEncodedChar(a[i]) || a[i] == '=' || a[i] == '&'
    requires forall i :: 0 <= i < |b| ==> IsEncodedChar(b[i]) || b[i] == '=' || b[i] == '&'
    ensures forall i :: 0 <= i < |a + "&" + b| ==>
      IsEncodedChar((a + "&" + b)[i]) || (a + "&" + b)[i] == '=' || (a + "&" + b)[i] == '&'
  {
    forall i | 0 <= i < |a + "&" + b|
      ensures IsEncodedChar((a + "&" + b)[i]) || (a + "&" + b)[i] == '=' || (a + "&" + b)[i] == '&'
    {
      if i > |a| {
        assert (a + "&" + b)[i] == b[i - |a| - 1];
      }
    }
  }
}
