/** The application/x-www-form-urlencoded format of the WHATWG URL Standard (section 5), which
    URLSearchParams.toString() produces: the serializer of section 5.2 and, as its inverse, the
    parser of section 5.1. */
module FormUrlEncoded {
  import opened Wrappers
  import opened Seqs
  import Utf8

  type Byte = Utf8.Byte

  const AMPERSAND: Byte := 0x26
  const EQUALS: Byte := 0x3D
  const PLUS: Byte := 0x2B
  const PERCENT: Byte := 0x25
  const SPACE: Byte := 0x20

  /** The bytes the serializer writes as themselves: ASCII alphanumerics and `*`, `-`, `.`, `_`.
      Every other byte is in the application/x-www-form-urlencoded percent-encode set. */
  predicate IsUnescaped(b: Byte)
  {
    || 0x30 <= b <= 0x39 || 0x41 <= b <= 0x5A || 0x61 <= b <= 0x7A
    || b == 0x2A || b == 0x2D || b == 0x2E || b == 0x5F
  }

  /** An upper-case hexadecimal digit. */
  function HexDigit(n: int): Byte
    requires 0 <= n < 16
  {
    if n < 10 then 0x30 + n else 0x41 + n - 10
  }

  predicate IsHexDigit(b: Byte)
  {
    0x30 <= b <= 0x39 || 0x41 <= b <= 0x46 || 0x61 <= b <= 0x66
  }

  function HexValue(b: Byte): (n: int)
    requires IsHexDigit(b)
    ensures 0 <= n < 16
  {
    if b <= 0x39 then b - 0x30 else if b <= 0x46 then b - 0x41 + 10 else b - 0x61 + 10
  }

  /** One byte as the serializer writes it: space as `+`, an unescaped byte as itself, any
      other byte as `%` and two upper-case hexadecimal digits. */
  function EncodeByte(b: Byte): (r: seq<Byte>)
    ensures Utf8.IsAscii(r) && AMPERSAND !in r && EQUALS !in r
  {
    if b == SPACE then [PLUS]
    else if IsUnescaped(b) then [b]
    else [PERCENT, HexDigit(b / 16), HexDigit(b % 16)]
  }

  function EncodeBytes(bs: seq<Byte>): (r: seq<Byte>)
    ensures Utf8.IsAscii(r) && AMPERSAND !in r && EQUALS !in r
  {
    if bs == [] then [] else EncodeByte(bs[0]) + EncodeBytes(bs[1..])
  }

  /** "Percent-encode after encoding" with UTF-8: the text the serializer writes for a name or a value. */
  function EncodeText(s: string): string
  {
    Utf8.AsciiText(EncodeBytes(Utf8.Encode(s)))
  }

  lemma {:induction false} EncodeBytesAppend(a: seq<Byte>, b: seq<Byte>)
    ensures EncodeBytes(a + b) == EncodeBytes(a) + EncodeBytes(b)
  {
    if a == [] {
      assert a + b == b;
    } else {
      assert (a + b)[0] == a[0];
      assert (a + b)[1..] == a[1..] + b;
      EncodeBytesAppend(a[1..], b);
    }
  }

  /** Names and values are encoded character by character. */
  lemma EncodeTextAppend(a: string, b: string)
    ensures EncodeText(a + b) == EncodeText(a) + EncodeText(b)
  {
    Utf8.EncodeAppend(a, b);
    EncodeBytesAppend(Utf8.Encode(a), Utf8.Encode(b));
    Utf8.AsciiTextAppend(EncodeBytes(Utf8.Encode(a)), EncodeBytes(Utf8.Encode(b)));
  }

  /** Text made only of ASCII alphanumerics and `*-._`. */
  predicate IsPlain(s: string)
  {
    forall i :: 0 <= i < |s| ==> s[i] as int < 0x80 && IsUnescaped(s[i] as int)
  }

  /** Plain text is written as itself. */
  lemma {:induction false} EncodePlain(s: string)
    requires IsPlain(s)
    ensures EncodeText(s) == s
  {
    if s != [] {
      assert s == [s[0]] + s[1..];
      EncodeTextAppend([s[0]], s[1..]);
      assert Utf8.Encode([s[0]]) == [s[0] as int];
      EncodePlain(s[1..]);
    }
  }

  function SerializePair(p: (string, string)): string
  {
    EncodeText(p.0) + "=" + EncodeText(p.1)
  }

  /** The serializer: each name and value encoded and joined by `=`, the pairs in order and
      separated by `&`. */
  function Serialize(pairs: seq<(string, string)>): string
  {
    Join(seq(|pairs|, i requires 0 <= i < |pairs| => SerializePair(pairs[i])), '&')
  }

  /** The bytes of a serialized pair. */
  function EncodePair(p: (string, string)): (r: seq<Byte>)
    ensures AMPERSAND !in r
  {
    EncodeBytes(Utf8.Encode(p.0)) + [EQUALS] + EncodeBytes(Utf8.Encode(p.1))
  }

  lemma EncodeSerializePair(p: (string, string))
    ensures Utf8.Encode(SerializePair(p)) == EncodePair(p)
  {
    var n := EncodeBytes(Utf8.Encode(p.0));
    var v := EncodeBytes(Utf8.Encode(p.1));
    var a, b := EncodeText(p.0), EncodeText(p.1);
    Utf8.EncodeAppend(a + "=", b);
    Utf8.EncodeAppend(a, "=");
    Utf8.EncodeAscii(n);
    Utf8.EncodeAscii(v);
    assert Utf8.Encode("=") == [EQUALS] by {
      assert Utf8.EncodeChar('=') == [EQUALS];
    }
    calc {
      Utf8.Encode(SerializePair(p));
      Utf8.Encode(a + "=") + Utf8.Encode(b);
      Utf8.Encode(a) + Utf8.Encode("=") + Utf8.Encode(b);
      n + [EQUALS] + v;
    }
  }

  /** Encoding a join by `&` joins the encodings by the byte of `&`. */
  lemma {:induction false} EncodeJoin(texts: seq<string>)
    ensures Utf8.Encode(Join(texts, '&')) == Join(seq(|texts|, i requires 0 <= i < |texts| => Utf8.Encode(texts[i])), AMPERSAND)
  {
    var bs := seq(|texts|, i requires 0 <= i < |texts| => Utf8.Encode(texts[i]));
    if |texts| > 1 {
      Utf8.EncodeAppend(texts[0] + "&", Join(texts[1..], '&'));
      Utf8.EncodeAppend(texts[0], "&");
      EncodeJoin(texts[1..]);
      assert bs[1..] == seq(|texts[1..]|, i requires 0 <= i < |texts[1..]| => Utf8.Encode(texts[1..][i]));
    }
  }

  /** Percent-decoding: `%` and two hexadecimal digits stand for one byte; any other byte,
      including a `%` not followed by two hexadecimal digits, stands for itself. */
  function PercentDecode(bs: seq<Byte>): seq<Byte>
    decreases |bs|
  {
    if bs == [] then []
    else if bs[0] == PERCENT && |bs| >= 3 && IsHexDigit(bs[1]) && IsHexDigit(bs[2]) then
      [HexValue(bs[1]) * 16 + HexValue(bs[2])] + PercentDecode(bs[3..])
    else [bs[0]] + PercentDecode(bs[1..])
  }

  function PlusToSpace(bs: seq<Byte>): seq<Byte>
  {
    seq(|bs|, i requires 0 <= i < |bs| => if bs[i] == PLUS then SPACE else bs[i])
  }

  /** A name or a value as the parser reads it: `+` as space, percent-decoded, UTF-8 decoded. */
  function DecodeComponent(bs: seq<Byte>): Option<string>
  {
    Utf8.Decode(PercentDecode(PlusToSpace(bs)))
  }

  /** The pairs of the `&`-separated byte sequences, skipping empty ones; a sequence is cut
      at its first `=` into name and value, and without `=` it is a name with an empty value. */
  function ParsePieces(pieces: seq<seq<Byte>>): Option<seq<(string, string)>>
  {
    if pieces == [] then Some([])
    else if pieces[0] == [] then ParsePieces(pieces[1..])
    else
      var (name, value) := SplitFirst(pieces[0], EQUALS);
      match (DecodeComponent(name), DecodeComponent(value), ParsePieces(pieces[1..]))
      case (Some(n), Some(v), Some(rest)) => Some([(n, v)] + rest)
      case _ => None
  }

  /** The parser, applied to the UTF-8 encoding of a query string. */
  function Parse(query: string): Option<seq<(string, string)>>
  {
    ParsePieces(Split(Utf8.Encode(query), AMPERSAND))
  }

  lemma PlusToSpaceAppend(a: seq<Byte>, b: seq<Byte>)
    ensures PlusToSpace(a + b) == PlusToSpace(a) + PlusToSpace(b)
  {
  }

  /** Decoding reads one encoded byte back off the front. */
  lemma DecodeEncodedByte(b: Byte, r: seq<Byte>)
    ensures PercentDecode(PlusToSpace(EncodeByte(b)) + r) == [b] + PercentDecode(r)
  {
    var t := PlusToSpace(EncodeByte(b)) + r;
    if b == SPACE || IsUnescaped(b) {
      assert t == [b] + r;
      assert t[1..] == r;
    } else {
      assert t == [PERCENT, HexDigit(b / 16), HexDigit(b % 16)] + r;
      assert t[3..] == r;
      assert HexValue(HexDigit(b / 16)) * 16 + HexValue(HexDigit(b % 16)) == b;
    }
  }

  /** Percent-decoding undoes the serializer's encoding of a byte sequence. */
  lemma {:induction false} DecodeEncodeBytes(bs: seq<Byte>)
    ensures PercentDecode(PlusToSpace(EncodeBytes(bs))) == bs
  {
    if bs != [] {
      var u := EncodeByte(bs[0]);
      var rest := EncodeBytes(bs[1..]);
      assert EncodeBytes(bs) == u + rest;
      PlusToSpaceAppend(u, rest);
      DecodeEncodedByte(bs[0], PlusToSpace(rest));
      DecodeEncodeBytes(bs[1..]);
      assert [bs[0]] + bs[1..] == bs;
    }
  }

  /** A name or value reads back as itself. */
  lemma DecodeComponentEncoded(s: string)
    ensures DecodeComponent(EncodeBytes(Utf8.Encode(s))) == Some(s)
  {
    DecodeEncodeBytes(Utf8.Encode(s));
    Utf8.DecodeEncode(s);
  }

  /** One serialized pair reads back as itself, ahead of whatever follows it. */
  lemma ParseEncodedPiece(p: (string, string), rest: seq<seq<Byte>>)
    ensures ParsePieces([EncodePair(p)] + rest)
            == match ParsePieces(rest) case Some(r) => Some([p] + r) case None => None
  {
    var n := EncodeBytes(Utf8.Encode(p.0));
    var v := EncodeBytes(Utf8.Encode(p.1));
    var pieces := [EncodePair(p)] + rest;
    assert pieces[0] == n + [EQUALS] + v;
    assert pieces[1..] == rest;
    SplitFirstConcat(n, EQUALS, v);
    DecodeComponentEncoded(p.0);
    DecodeComponentEncoded(p.1);
  }

  lemma {:induction false} ParseEncodedPieces(pairs: seq<(string, string)>, parts: seq<seq<Byte>>)
    requires |parts| == |pairs| && forall i :: 0 <= i < |pairs| ==> parts[i] == EncodePair(pairs[i])
    ensures ParsePieces(parts) == Some(pairs)
  {
    if pairs != [] {
      assert parts == [EncodePair(pairs[0])] + parts[1..];
      ParseEncodedPieces(pairs[1..], parts[1..]);
      ParseEncodedPiece(pairs[0], parts[1..]);
      assert [pairs[0]] + pairs[1..] == pairs;
    }
  }

  /** Parsing a serialized list of pairs gives back the same pairs, in the same order. */
  lemma ParseSerialize(pairs: seq<(string, string)>)
    ensures Parse(Serialize(pairs)) == Some(pairs)
  {
    var texts := seq(|pairs|, i requires 0 <= i < |pairs| => SerializePair(pairs[i]));
    var parts := seq(|pairs|, i requires 0 <= i < |pairs| => EncodePair(pairs[i]));
    EncodeJoin(texts);
    forall i | 0 <= i < |pairs|
      ensures Utf8.Encode(texts[i]) == parts[i]
    {
      EncodeSerializePair(pairs[i]);
    }
    assert seq(|texts|, i requires 0 <= i < |texts| => Utf8.Encode(texts[i])) == parts;
    assert Utf8.Encode(Serialize(pairs)) == Join(parts, AMPERSAND);
    if pairs == [] {
      assert Split(Join(parts, AMPERSAND), AMPERSAND) == [[]];
      assert ParsePieces([[]]) == ParsePieces([]);
    } else {
      SplitJoin(parts, AMPERSAND);
      ParseEncodedPieces(pairs, parts);
    }
  }

  /** A colon is not left as it is: the separator inside a `sort_by` value goes out as `%3A`. */
  lemma EncodeColon()
    ensures EncodeText(":") == "%3A"
  {
    assert Utf8.Encode(":") == [0x3A];
    assert EncodeBytes([0x3A]) == [0x25, 0x33, 0x41];
  }
}
