/** Percent-encoding of a name for the query string of the upload URL, as done by
    `utf8_percent_encode(name, QUERY_ENCODE_SET)`: the name's UTF-8 bytes are written one by
    one, and every byte in the encode set, as well as every non-ASCII byte, becomes `%XX`
    with two upper-case hexadecimal digits (section 2.1 of RFC 3986). */
module PercentEncoding {
  import opened Strings

  type byte = x: int | 0 <= x < 256

  /** UTF-8 encoding of one Unicode scalar value (section 3 of RFC 3629). */
  function Utf8Char(c: char): (r: seq<byte>)
    ensures 1 <= |r| <= 4
    ensures c as int < 0x80 ==> r == [c as int]
    ensures c as int >= 0x80 ==> |r| >= 2
    ensures c as int >= 0x80 ==> forall i :: 0 <= i < |r| ==> r[i] >= 0x80
  {
    var cp := c as int;
    if cp < 0x80 then [cp]
    else if cp < 0x800 then [0xC0 + cp / 0x40, 0x80 + cp % 0x40]
    else if cp < 0x1_0000 then [0xE0 + cp / 0x1000, 0x80 + (cp / 0x40) % 0x40, 0x80 + cp % 0x40]
    else [0xF0 + cp / 0x4_0000, 0x80 + (cp / 0x1000) % 0x40, 0x80 + (cp / 0x40) % 0x40, 0x80 + cp % 0x40]
  }

  /** The bytes of a Rust `&str`. */
  function Utf8(s: string): (r: seq<byte>)
    ensures |r| >= |s|
  {
    if |s| == 0 then [] else Utf8Char(s[0]) + Utf8(s[1..])
  }

  /** Which set of bytes an encoder escapes. `QueryEncodeSet` is the program's
      `QUERY_ENCODE_SET`; `QueryComponentSet` adds `&` and `+`, the two bytes a query
      parser gives a meaning to inside a parameter value. */
  datatype EncodeSet = QueryEncodeSet | QueryComponentSet

  /** `CONTROLS` of the percent-encoding library: C0 controls and DEL. */
  predicate IsControl(b: byte) {
    b < 0x20 || b == 0x7F
  }

  /** Membership in `QUERY_ENCODE_SET`: controls plus space " # < > ? ` { } | \ ^ [ ] %. */
  predicate InQueryEncodeSet(b: byte) {
    || IsControl(b)
    || b == ' ' as int || b == '"' as int || b == '#' as int || b == '<' as int
    || b == '>' as int || b == '?' as int || b == '`' as int || b == '{' as int
    || b == '}' as int || b == '|' as int || b == '\\' as int || b == '^' as int
    || b == '[' as int || b == ']' as int || b == '%' as int
  }

  /** Whether the encoder writes `b` as `%XX`: every non-ASCII byte, and the ASCII bytes of the set. */
  predicate Escapes(encodeSet: EncodeSet, b: byte) {
    || b >= 0x80
    || InQueryEncodeSet(b)
    || (encodeSet == QueryComponentSet && (b == '&' as int || b == '+' as int))
  }

  predicate IsHexDigit(c: char) {
    ('0' <= c <= '9') || ('A' <= c <= 'F') || ('a' <= c <= 'f')
  }

  function HexValue(c: char): (v: nat)
    requires IsHexDigit(c)
    ensures v < 16
  {
    if '0' <= c <= '9' then c as int - '0' as int
    else if 'A' <= c <= 'F' then c as int - 'A' as int + 10
    else c as int - 'a' as int + 10
  }

  /** Upper-case hexadecimal digit, as the library writes it. */
  function HexDigit(v: nat): (c: char)
    requires v < 16
    ensures IsHexDigit(c) && HexValue(c) == v
    ensures !('a' <= c <= 'f')
  {
    if v < 10 then ('0' as int + v) as char else ('A' as int + v - 10) as char
  }

  /** One byte of output: `%XX` when the byte is escaped, the byte itself otherwise. */
  function EncodeByte(encodeSet: EncodeSet, b: byte): (r: string)
    ensures Escapes(encodeSet, b) ==>
              && |r| == 3 && r[0] == '%' && IsHexDigit(r[1]) && IsHexDigit(r[2])
              && HexValue(r[1]) * 16 + HexValue(r[2]) == b
    ensures !Escapes(encodeSet, b) ==> r == [b as char]
  {
    if Escapes(encodeSet, b) then ['%', HexDigit(b / 16), HexDigit(b % 16)] else [b as char]
  }

  /** The encoder's output: each byte becomes one character, or three when escaped. */
  function PercentEncode(encodeSet: EncodeSet, bs: seq<byte>): (r: string)
    ensures |bs| <= |r| <= 3 * |bs|
  {
    if |bs| == 0 then "" else EncodeByte(encodeSet, bs[0]) + PercentEncode(encodeSet, bs[1..])
  }

  /** `utf8_percent_encode(s, QUERY_ENCODE_SET)` rendered to a string. */
  function EncodeQueryValue(s: string): (r: string)
    ensures PercentDecode(r) == Utf8(s)
    ensures |r| >= |s|
  {
    DecodeEncode(QueryEncodeSet, Utf8(s));
    PercentEncode(QueryEncodeSet, Utf8(s))
  }

  /** Percent-decoding as the percent-encoding library does it: `%` followed by two hex
      digits (either case) stands for that byte; anything else stands for its own UTF-8 bytes. */
  function PercentDecode(s: string): seq<byte>
  {
    if |s| == 0 then []
    else if s[0] == '%' && |s| >= 3 && IsHexDigit(s[1]) && IsHexDigit(s[2]) then
      [HexValue(s[1]) * 16 + HexValue(s[2])] + PercentDecode(s[3..])
    else Utf8Char(s[0]) + PercentDecode(s[1..])
  }

  /** Every character of the output is ASCII, and the only one the set escapes is `%`. */
  lemma {:induction false} EncodedIsPlainAscii(encodeSet: EncodeSet, bs: seq<byte>)
    ensures forall i :: 0 <= i < |PercentEncode(encodeSet, bs)| ==>
              var c := PercentEncode(encodeSet, bs)[i];
              c as int < 0x80 && (c == '%' || !Escapes(encodeSet, c as int))
  {
    if |bs| > 0 {
      EncodedIsPlainAscii(encodeSet, bs[1..]);
      var head := EncodeByte(encodeSet, bs[0]);
      var tail := PercentEncode(encodeSet, bs[1..]);
      forall i | 0 <= i < |head + tail|
        ensures var c := (head + tail)[i];
                c as int < 0x80 && (c == '%' || !Escapes(encodeSet, c as int))
      {
        if i >= |head| { assert (head + tail)[i] == tail[i - |head|]; }
      }
    }
  }

  /** The output holds no escaped ASCII byte other than `%`, which only opens escapes. */
  lemma EncodedAvoids(encodeSet: EncodeSet, bs: seq<byte>, c: char)
    requires c != '%' && !IsHexDigit(c) && c as int < 0x80 && Escapes(encodeSet, c as int)
    ensures !Contains(PercentEncode(encodeSet, bs), c)
  {
    EncodedIsPlainAscii(encodeSet, bs);
  }

  /** An ASCII character that is neither `%` nor a hex digit appears in the output only where
      the same byte appears, unescaped, in the input. */
  lemma {:induction false} EncodedCharComesFromByte(encodeSet: EncodeSet, bs: seq<byte>, c: char)
    requires c != '%' && !IsHexDigit(c)
    requires Contains(PercentEncode(encodeSet, bs), c)
    ensures c as int in bs && !Escapes(encodeSet, c as int)
  {
    var head := EncodeByte(encodeSet, bs[0]);
    var tail := PercentEncode(encodeSet, bs[1..]);
    var i :| 0 <= i < |head + tail| && (head + tail)[i] == c;
    if i < |head| {
      assert bs[0] == c as int;
    } else {
      assert tail[i - |head|] == c;
      EncodedCharComesFromByte(encodeSet, bs[1..], c);
    }
  }

  /** An ASCII byte occurs in the UTF-8 bytes of a string only as that very character. */
  lemma {:induction false} Utf8AsciiByte(s: string, c: char)
    requires c as int < 0x80
    requires c as int in Utf8(s)
    ensures Contains(s, c)
  {
    var head := Utf8Char(s[0]);
    if c as int in head {
      assert s[0] == c;
    } else {
      Utf8AsciiByte(s[1..], c);
      var i :| 0 <= i < |s[1..]| && s[1..][i] == c;
      assert s[i + 1] == c;
    }
  }

  /** Decoding one encoded byte followed by anything encoded gives that byte first. */
  lemma DecodeStep(encodeSet: EncodeSet, b: byte, rest: string)
    ensures PercentDecode(EncodeByte(encodeSet, b) + rest) == [b] + PercentDecode(rest)
  {
    var e := EncodeByte(encodeSet, b);
    if Escapes(encodeSet, b) {
      assert (e + rest)[3..] == rest;
    } else {
      assert b < 0x80 && b != '%' as int;
      assert (e + rest)[0] == b as char;
      assert (e + rest)[1..] == rest;
    }
  }

  /** Round trip: decoding the encoding gives back exactly the original bytes. */
  lemma {:induction false} DecodeEncode(encodeSet: EncodeSet, bs: seq<byte>)
    ensures PercentDecode(PercentEncode(encodeSet, bs)) == bs
  {
    if |bs| > 0 {
      DecodeStep(encodeSet, bs[0], PercentEncode(encodeSet, bs[1..]));
      DecodeEncode(encodeSet, bs[1..]);
      assert [bs[0]] + bs[1..] == bs;
    }
  }

  /** How many of the bytes the set escapes. */
  function EscapeCount(encodeSet: EncodeSet, bs: seq<byte>): nat {
    if |bs| == 0 then 0 else (if Escapes(encodeSet, bs[0]) then 1 else 0) + EscapeCount(encodeSet, bs[1..])
  }

  /** A byte the set leaves alone is copied as it is, and one it escapes becomes three
      characters: the length of the output counts the escapes. */
  lemma {:induction false} EncodedLength(encodeSet: EncodeSet, bs: seq<byte>)
    ensures |PercentEncode(encodeSet, bs)| == |bs| + 2 * EscapeCount(encodeSet, bs)
  {
    if |bs| > 0 { EncodedLength(encodeSet, bs[1..]); }
  }

  /** Bytes outside the set pass through unchanged: a name made of them is its own encoding. */
  lemma {:induction false} EncodeUnescapedIsIdentity(encodeSet: EncodeSet, bs: seq<byte>)
    requires forall i :: 0 <= i < |bs| ==> !Escapes(encodeSet, bs[i])
    ensures PercentEncode(encodeSet, bs) == seq(|bs|, i requires 0 <= i < |bs| => bs[i] as char)
  {
    if |bs| > 0 {
      EncodeUnescapedIsIdentity(encodeSet, bs[1..]);
    }
  }
}
