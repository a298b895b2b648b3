/** The percent-encoding of a guest mount path: UTF-8 bytes, unreserved ones and `/` kept. */
module GuestPath {
  import opened Characters
  import opened Sequences

  type Byte = b: int | 0 <= b < 256

  /** The UTF-8 form of one character (RFC 3629, section 3). */
  function Utf8Char(c: char): (r: seq<Byte>)
    ensures 1 <= |r| <= 4
  {
    var v := c as int;
    if v < 0x80 then [v]
    else if v < 0x800 then [0xC0 + v / 64, 0x80 + v % 64]
    else if v < 0x1_0000 then [0xE0 + v / 4096, 0x80 + v / 64 % 64, 0x80 + v % 64]
    else [0xF0 + v / 262144, 0x80 + v / 4096 % 64, 0x80 + v / 64 % 64, 0x80 + v % 64]
  }

  function Utf8(s: string): (r: seq<Byte>)
  {
    if s == "" then [] else Utf8Char(s[0]) + Utf8(s[1..])
  }

  /** `A-Z a-z 0-9 - . _ ~` (RFC 3986, section 2.3) and the separator. */
  predicate Kept(b: Byte)
  {
    || 'A' as int <= b <= 'Z' as int || 'a' as int <= b <= 'z' as int || '0' as int <= b <= '9' as int
    || b == '-' as int || b == '.' as int || b == '_' as int || b == '~' as int || b == '/' as int
  }

  function EncodeByte(b: Byte): (r: string)
  {
    if Kept(b) then [b as char] else ['%', HexDigit(b / 16), HexDigit(b % 16)]
  }

  function EncodeBytes(bytes: seq<Byte>): (r: string)
  {
    if bytes == [] then "" else EncodeByte(bytes[0]) + EncodeBytes(bytes[1..])
  }

  function Encode(path: string): (r: string)
  {
    EncodeBytes(Utf8(path))
  }

  // Decoding undoes encoding.

  function HexValue(c: char): (n: int)
  {
    if '0' <= c <= '9' then c as int - '0' as int
    else if 'A' <= c <= 'F' then c as int - 'A' as int + 10
    else -1
  }

  /** Percent-decoding (RFC 3986, section 2.1) of upper-case hex; a character past U+00FF decodes to nothing. */
  function DecodeBytes(s: string): (r: seq<Byte>)
  {
    if s == "" then []
    else if s[0] == '%' && |s| >= 3 && HexValue(s[1]) >= 0 && HexValue(s[2]) >= 0 then
      [HexValue(s[1]) * 16 + HexValue(s[2])] + DecodeBytes(s[3..])
    else if s[0] as int < 256 then [s[0] as int] + DecodeBytes(s[1..])
    else DecodeBytes(s[1..])
  }

  lemma {:induction false} DecodeOne(b: Byte, tail: string)
    ensures DecodeBytes(EncodeByte(b) + tail) == [b] + DecodeBytes(tail)
  {
    DropPrefix(EncodeByte(b), tail);
  }

  /** Percent-decoding the encoded bytes gives the bytes back. */
  lemma {:induction false} DecodeEncode(bytes: seq<Byte>)
    ensures DecodeBytes(EncodeBytes(bytes)) == bytes
  {
    if bytes == [] {
    } else {
      DecodeOne(bytes[0], EncodeBytes(bytes[1..]));
      DecodeEncode(bytes[1..]);
      HeadTail(bytes);
    }
  }

  lemma {:induction false} Utf8LeadDecidesLength(c: char)
    ensures var b := Utf8Char(c)[0];
            |Utf8Char(c)| == if b < 0x80 then 1 else if b < 0xE0 then 2 else if b < 0xF0 then 3 else 4
  {
  }

  lemma {:induction false} SixBitDigits(v: nat)
    ensures v == v / 64 * 64 + v % 64
    ensures v / 64 == v / 4096 * 64 + v / 64 % 64
    ensures v / 4096 == v / 262144 * 64 + v / 4096 % 64
  {
  }

  lemma {:induction false} Utf8CharInjective(c: char, d: char)
    requires Utf8Char(c) == Utf8Char(d)
    ensures c == d
  {
    var r, q := Utf8Char(c), Utf8Char(d);
    SixBitDigits(c as int);
    SixBitDigits(d as int);
    Utf8LeadDecidesLength(c);
    Utf8LeadDecidesLength(d);
    assert r[0] == q[0];
    if |r| == 2 {
      assert r[1] == q[1];
    } else if |r| == 3 {
      assert r[1] == q[1] && r[2] == q[2];
    } else if |r| == 4 {
      assert r[1] == q[1] && r[2] == q[2] && r[3] == q[3];
    }
    assert c as int == d as int;
  }

  lemma {:induction false} Utf8Injective(a: string, b: string)
    requires Utf8(a) == Utf8(b)
    ensures a == b
  {
    if a != "" && b != "" {
      var r, q := Utf8Char(a[0]), Utf8Char(b[0]);
      var t, u := Utf8(a[1..]), Utf8(b[1..]);
      assert (r + t)[0] == r[0] && (q + u)[0] == q[0];
      Utf8LeadDecidesLength(a[0]);
      Utf8LeadDecidesLength(b[0]);
      DropPrefix(r, t);
      DropPrefix(q, u);
      Utf8CharInjective(a[0], b[0]);
      Utf8Injective(a[1..], b[1..]);
      HeadTail(a);
      HeadTail(b);
    }
  }

  /** Two mount paths with the same encoding are the same path. */
  lemma EncodeInjective(a: string, b: string)
    requires Encode(a) == Encode(b)
    ensures a == b
  {
    DecodeEncode(Utf8(a));
    DecodeEncode(Utf8(b));
    Utf8Injective(a, b);
  }

  // The shape of an encoded path.

  ghost predicate UpperHex(c: char)
  {
    '0' <= c <= '9' || 'A' <= c <= 'F'
  }

  /** Only kept bytes and upper-case `%XX` triples. */
  ghost predicate WellEncoded(s: string)
  {
    if s == "" then true
    else if s[0] == '%' then |s| >= 3 && UpperHex(s[1]) && UpperHex(s[2]) && WellEncoded(s[3..])
    else s[0] as int < 256 && Kept(s[0] as int) && WellEncoded(s[1..])
  }

  lemma {:induction false} EncodedShape(bytes: seq<Byte>)
    ensures WellEncoded(EncodeBytes(bytes))
    ensures '/' in EncodeBytes(bytes) <==> '/' as int in bytes
  {
    if bytes == [] {
    } else {
      var e, rest := EncodeByte(bytes[0]), EncodeBytes(bytes[1..]);
      EncodedShape(bytes[1..]);
      DropPrefix(e, rest);
      assert forall c :: c in e + rest <==> c in e || c in rest;
    }
  }

  lemma {:induction false} Utf8Slash(s: string)
    ensures '/' as int in Utf8(s) <==> '/' in s
  {
    if s == "" {
    } else {
      Utf8Slash(s[1..]);
      assert forall b :: b in Utf8(s) <==> b in Utf8Char(s[0]) || b in Utf8(s[1..]);
      assert '/' as int in Utf8Char(s[0]) <==> s[0] == '/';
    }
  }

  /** Every encoding is made of unreserved bytes, `/` and upper-case `%XX`, and keeps separators apart. */
  lemma EncodeShape(path: string)
    ensures WellEncoded(Encode(path))
    ensures '/' in Encode(path) <==> '/' in path
  {
    EncodedShape(Utf8(path));
    Utf8Slash(path);
  }

  lemma {:induction false} EncodeBytesConcat(a: seq<Byte>, b: seq<Byte>)
    ensures EncodeBytes(a + b) == EncodeBytes(a) + EncodeBytes(b)
  {
    if a == [] {
      assert a + b == b;
    } else {
      EncodeBytesConcat(a[1..], b);
      assert (a + b)[1..] == a[1..] + b;
      Associates(EncodeByte(a[0]), EncodeBytes(a[1..]), EncodeBytes(b));
    }
  }

  lemma {:induction false} Utf8Concat(a: string, b: string)
    ensures Utf8(a + b) == Utf8(a) + Utf8(b)
  {
    if a == "" {
      assert a + b == b;
    } else {
      Utf8Concat(a[1..], b);
      assert (a + b)[1..] == a[1..] + b;
      Associates(Utf8Char(a[0]), Utf8(a[1..]), Utf8(b));
    }
  }

  lemma EncodeConcat(a: string, b: string)
    ensures Encode(a + b) == Encode(a) + Encode(b)
  {
    Utf8Concat(a, b);
    EncodeBytesConcat(Utf8(a), Utf8(b));
  }

  lemma {:induction false} EncodeBytesSnoc(a: seq<Byte>, b: Byte)
    ensures EncodeBytes(a + [b]) == EncodeBytes(a) + EncodeByte(b)
  {
    EncodeBytesConcat(a, [b]);
    assert EncodeBytes([b]) == EncodeByte(b);
  }

  /** The byte loop of `encodeGuestPath`. */
  method EncodeGuestPath(mountPoint: string) returns (encoded: string)
    ensures encoded == Encode(mountPoint)
  {
    var bytes := Utf8(mountPoint);
    encoded := "";
    var i := 0;
    while i < |bytes|
      invariant i <= |bytes|
      invariant encoded == EncodeBytes(bytes[..i])
    {
      EncodeBytesSnoc(bytes[..i], bytes[i]);
      assert bytes[..i] + [bytes[i]] == bytes[..i + 1];
      encoded := encoded + EncodeByte(bytes[i]);
      i := i + 1;
    }
    assert bytes[..|bytes|] == bytes;
  }

  // What an encoding looks like.

  const FirstUpper := "ABCDEFGHI"
  const MiddleUpper := "JKLMNOPQR"
  const LastUpper := "STUVWXYZ"
  const FirstLower := "abcdefghi"
  const MiddleLower := "jklmnopqr"
  const LastLower := "stuvwxyz"
  const Digits := "0123456789"
  const Marks := "-._~/"

  /** The unreserved characters of section 2.3 of RFC 3986, and the separator. */
  predicate IsUnreserved(c: char)
  {
    || c in FirstUpper || c in MiddleUpper || c in LastUpper
    || c in FirstLower || c in MiddleLower || c in LastLower
    || c in Digits || c in Marks
  }

  lemma {:induction false} FirstUpperIs(c: char)
    ensures c in FirstUpper <==> 'A' <= c <= 'I'
  {
    assert FirstUpper[0] == 'A' && FirstUpper[1] == 'B' && FirstUpper[2] == 'C' && FirstUpper[3] == 'D';
    assert FirstUpper[4] == 'E' && FirstUpper[5] == 'F' && FirstUpper[6] == 'G' && FirstUpper[7] == 'H';
    assert FirstUpper[8] == 'I';
    if 'A' <= c <= 'I' {
      assert FirstUpper[c as int - 'A' as int] == c;
    }
  }

  lemma {:induction false} MiddleUpperIs(c: char)
    ensures c in MiddleUpper <==> 'J' <= c <= 'R'
  {
    assert MiddleUpper[0] == 'J' && MiddleUpper[1] == 'K' && MiddleUpper[2] == 'L' && MiddleUpper[3] == 'M';
    assert MiddleUpper[4] == 'N' && MiddleUpper[5] == 'O' && MiddleUpper[6] == 'P' && MiddleUpper[7] == 'Q';
    assert MiddleUpper[8] == 'R';
    if 'J' <= c <= 'R' {
      assert MiddleUpper[c as int - 'J' as int] == c;
    }
  }

  lemma {:induction false} LastUpperIs(c: char)
    ensures c in LastUpper <==> 'S' <= c <= 'Z'
  {
    assert LastUpper[0] == 'S' && LastUpper[1] == 'T' && LastUpper[2] == 'U' && LastUpper[3] == 'V';
    assert LastUpper[4] == 'W' && LastUpper[5] == 'X' && LastUpper[6] == 'Y' && LastUpper[7] == 'Z';
    if 'S' <= c <= 'Z' {
      assert LastUpper[c as int - 'S' as int] == c;
    }
  }

  lemma {:induction false} FirstLowerIs(c: char)
    ensures c in FirstLower <==> 'a' <= c <= 'i'
  {
    assert FirstLower[0] == 'a' && FirstLower[1] == 'b' && FirstLower[2] == 'c' && FirstLower[3] == 'd';
    assert FirstLower[4] == 'e' && FirstLower[5] == 'f' && FirstLower[6] == 'g' && FirstLower[7] == 'h';
    assert FirstLower[8] == 'i';
    if 'a' <= c <= 'i' {
      assert FirstLower[c as int - 'a' as int] == c;
    }
  }

  lemma {:induction false} MiddleLowerIs(c: char)
    ensures c in MiddleLower <==> 'j' <= c <= 'r'
  {
    assert MiddleLower[0] == 'j' && MiddleLower[1] == 'k' && MiddleLower[2] == 'l' && MiddleLower[3] == 'm';
    assert MiddleLower[4] == 'n' && MiddleLower[5] == 'o' && MiddleLower[6] == 'p' && MiddleLower[7] == 'q';
    assert MiddleLower[8] == 'r';
    if 'j' <= c <= 'r' {
      assert MiddleLower[c as int - 'j' as int] == c;
    }
  }

  lemma {:induction false} LastLowerIs(c: char)
    ensures c in LastLower <==> 's' <= c <= 'z'
  {
    assert LastLower[0] == 's' && LastLower[1] == 't' && LastLower[2] == 'u' && LastLower[3] == 'v';
    assert LastLower[4] == 'w' && LastLower[5] == 'x' && LastLower[6] == 'y' && LastLower[7] == 'z';
    if 's' <= c <= 'z' {
      assert LastLower[c as int - 's' as int] == c;
    }
  }

  lemma {:induction false} DigitsIs(c: char)
    ensures c in Digits <==> '0' <= c <= '9'
  {
    assert Digits[0] == '0' && Digits[1] == '1' && Digits[2] == '2' && Digits[3] == '3' && Digits[4] == '4';
    assert Digits[5] == '5' && Digits[6] == '6' && Digits[7] == '7' && Digits[8] == '8' && Digits[9] == '9';
    if '0' <= c <= '9' {
      assert Digits[c as int - '0' as int] == c;
    }
  }

  lemma {:induction false} UnreservedAreKept(c: char)
    ensures IsUnreserved(c) <==> c as int < 128 && Kept(c as int)
  {
    FirstUpperIs(c);
    MiddleUpperIs(c);
    LastUpperIs(c);
    FirstLowerIs(c);
    MiddleLowerIs(c);
    LastLowerIs(c);
    DigitsIs(c);
    assert Marks[0] == '-' && Marks[1] == '.' && Marks[2] == '_' && Marks[3] == '~' && Marks[4] == '/';
    hide FirstUpper, MiddleUpper, LastUpper, FirstLower, MiddleLower, LastLower, Digits;
  }

  /** A path over the unreserved characters is its own encoding. */
  lemma {:induction false} UnreservedIsItself(path: string)
    requires forall c :: c in path ==> IsUnreserved(c)
    ensures Encode(path) == path
  {
    if path == "" {
    } else {
      var rest := path[1..];
      assert path[0] in path && forall c :: c in rest ==> c in path;
      UnreservedIsItself(rest);
      EncodeCons(path[0], rest);
      UnreservedAreKept(path[0]);
      hide IsUnreserved;
      OneByte(path[0]);
      HeadTail(path);
    }
  }

  lemma {:induction false} EncodeCons(c: char, rest: string)
    ensures Encode([c] + rest) == EncodeBytes(Utf8Char(c)) + Encode(rest)
  {
    assert ([c] + rest)[1..] == rest;
    EncodeBytesConcat(Utf8Char(c), Utf8(rest));
  }

  lemma {:induction false} OneByte(c: char)
    requires c as int < 128
    ensures EncodeBytes(Utf8Char(c)) == EncodeByte(c as int)
  {
    assert [c as int][1..] == [];
    assert EncodeByte(c as int) + "" == EncodeByte(c as int);
  }

  /** Any other ASCII character is three characters: a percent sign and its two hex digits. */
  lemma {:induction false} ReservedIsTriple(c: char, rest: string)
    requires c as int < 128 && !IsUnreserved(c)
    ensures Encode([c] + rest) == ['%', HexDigit(c as int / 16), HexDigit(c as int % 16)] + Encode(rest)
  {
    EncodeCons(c, rest);
    UnreservedAreKept(c);
    OneByte(c);
  }

  // UTF-8, read back.

  /** The six bits of a continuation byte, or -1. */
  function Continuation(bytes: seq<Byte>, i: nat): (v: int)
  {
    if i < |bytes| && 0x80 <= bytes[i] <= 0xBF then bytes[i] - 0x80 else -1
  }

  /** The value that a well-formed byte sequence begins with, and its length (RFC 3629, section 3); -1 for none. */
  function FirstScalar(bytes: seq<Byte>): (r: (int, nat))
  {
    if bytes == [] then (-1, 0)
    else
      var lead, a, b, c := bytes[0], Continuation(bytes, 1), Continuation(bytes, 2), Continuation(bytes, 3);
      if lead <= 0x7F then (lead, 1)
      else if 0xC2 <= lead <= 0xDF && a >= 0 then (lead % 0x20 * 0x40 + a, 2)
      else if 0xE0 <= lead <= 0xEF && a >= 0 && b >= 0 then ((lead % 0x10 * 0x40 + a) * 0x40 + b, 3)
      else if 0xF0 <= lead <= 0xF4 && a >= 0 && b >= 0 && c >= 0 then
        (((lead % 0x08 * 0x40 + a) * 0x40 + b) * 0x40 + c, 4)
      else (-1, 0)
  }

  lemma {:induction false} FirstScalarIs(c: char, rest: seq<Byte>)
    ensures FirstScalar(Utf8Char(c) + rest) == (c as int, |Utf8Char(c)|)
  {
    var v, bytes := c as int, Utf8Char(c) + rest;
    if v < 0x80 {
      assert bytes[0] == v;
    } else if v < 0x800 {
      assert bytes[0] == 0xC0 + v / 64 && bytes[1] == 0x80 + v % 64;
      TwoBytes(v, bytes);
    } else if v < 0x1_0000 {
      assert bytes[0] == 0xE0 + v / 4096 && bytes[1] == 0x80 + v / 64 % 64 && bytes[2] == 0x80 + v % 64;
      ThreeBytes(v, bytes);
    } else {
      assert bytes[0] == 0xF0 + v / 262144 && bytes[1] == 0x80 + v / 4096 % 64;
      assert bytes[2] == 0x80 + v / 64 % 64 && bytes[3] == 0x80 + v % 64;
      FourBytes(v, bytes);
    }
    hide FirstScalar;
  }

  lemma {:induction false} TwoBytes(v: nat, bytes: seq<Byte>)
    requires 0x80 <= v < 0x800 && |bytes| >= 2 && bytes[0] == 0xC0 + v / 64 && bytes[1] == 0x80 + v % 64
    ensures FirstScalar(bytes) == (v, 2)
  {
  }

  lemma {:induction false} ThreeBytes(v: nat, bytes: seq<Byte>)
    requires 0x800 <= v < 0x1_0000 && |bytes| >= 3
    requires bytes[0] == 0xE0 + v / 4096 && bytes[1] == 0x80 + v / 64 % 64 && bytes[2] == 0x80 + v % 64
    ensures FirstScalar(bytes) == (v, 3)
  {
    SixBitDigits(v);
  }

  lemma {:induction false} FourBytes(v: nat, bytes: seq<Byte>)
    requires 0x1_0000 <= v < 0x11_0000 && |bytes| >= 4 && bytes[0] == 0xF0 + v / 262144
    requires bytes[1] == 0x80 + v / 4096 % 64 && bytes[2] == 0x80 + v / 64 % 64 && bytes[3] == 0x80 + v % 64
    ensures FirstScalar(bytes) == (v, 4)
  {
    SixBitDigits(v);
  }

  /** Every byte sequence that a path is turned into reads back, by the UTF-8 tables, as exactly that path. */
  ghost predicate ReadsAs(bytes: seq<Byte>, s: string)
    decreases |s|
  {
    if s == "" then bytes == []
    else
      var (v, n) := FirstScalar(bytes);
      v == s[0] as int && 0 < n <= |bytes| && ReadsAs(bytes[n..], s[1..])
  }

  lemma {:induction false} Utf8ReadsBack(s: string)
    ensures ReadsAs(Utf8(s), s)
  {
    if s == "" {
    } else {
      Utf8ReadsBack(s[1..]);
      FirstScalarIs(s[0], Utf8(s[1..]));
      DropPrefix(Utf8Char(s[0]), Utf8(s[1..]));
    }
  }
}
