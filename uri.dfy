/**
 * `encodeURIComponent` and `decodeURIComponent` (section 19.2.6 of ECMA-262):
 * encoding keeps the unreserved characters and writes every other character
 * as the `%XX` escapes of its UTF-8 bytes (RFC 3629); decoding turns each run
 * of escapes back into the character it encodes and fails, as the URIError
 * the script would see, on an escape that is malformed or not valid UTF-8.
 */
module UriCoding {
  import opened Wrappers

  type Byte = n: int | 0 <= n < 0x100

  /** The characters `encodeURIComponent` leaves as they are. */
  predicate IsUnreserved(c: char) {
    || ('A' <= c <= 'Z') || ('a' <= c <= 'z') || ('0' <= c <= '9')
    || c == '-' || c == '_' || c == '.' || c == '!' || c == '~' || c == '*' || c == '\'' || c == '(' || c == ')'
  }

  /** An upper-case hexadecimal digit, as the encoder writes it. */
  function HexDigit(n: int): (c: char)
    requires 0 <= n < 16
    ensures IsUnreserved(c)
  {
    if n < 10 then ('0' as int + n) as char else ('A' as int + n - 10) as char
  }

  /** The value of a hexadecimal digit of either case. */
  function HexValue(c: char): (r: Option<int>)
    ensures r.Some? ==> 0 <= r.value < 16
  {
    if '0' <= c <= '9' then Some(c as int - '0' as int)
    else if 'A' <= c <= 'F' then Some(c as int - 'A' as int + 10)
    else if 'a' <= c <= 'f' then Some(c as int - 'a' as int + 10)
    else None
  }

  /** The UTF-8 encoding of one character. */
  function Utf8(c: char): (bytes: seq<Byte>)
    ensures 1 <= |bytes| <= 4
  {
    var n := c as int;
    var n6 := n / 0x40;
    var n12 := n6 / 0x40;
    var n18 := n12 / 0x40;
    if n < 0x80 then [n]
    else if n < 0x800 then [0xC0 + n6, 0x80 + n % 0x40]
    else if n < 0x10000 then [0xE0 + n12, 0x80 + n6 % 0x40, 0x80 + n % 0x40]
    else [0xF0 + n18, 0x80 + n12 % 0x40, 0x80 + n6 % 0x40, 0x80 + n % 0x40]
  }

  /** How many bytes a sequence starting with `b` has (its leading one bits), or 0 when `b` cannot start one. */
  function SequenceLength(b: Byte): nat {
    if b < 0x80 then 1
    else if 0xC0 <= b < 0xE0 then 2
    else if 0xE0 <= b < 0xF0 then 3
    else if 0xF0 <= b < 0xF8 then 4
    else 0
  }

  predicate IsContinuation(b: Byte) {
    0x80 <= b < 0xC0
  }

  /**
   * The character a UTF-8 byte sequence encodes, or None when the sequence is
   * not the valid encoding of one character: a wrong length for its first
   * byte, a byte that is not a continuation, an over-long form, a surrogate
   * or a value beyond U+10FFFF.
   */
  function Utf8Decode(bytes: seq<Byte>): (r: Option<char>)
  {
    if |bytes| == 0 || SequenceLength(bytes[0]) != |bytes| then None
    else if |bytes| == 1 then Some(bytes[0] as char)
    else if !IsContinuation(bytes[1]) then None
    else if |bytes| == 2 then
      var n: int := (bytes[0] as int - 0xC0) * 0x40 + (bytes[1] as int - 0x80);
      if n < 0x80 then None else Some(n as char)
    else if !IsContinuation(bytes[2]) then None
    else if |bytes| == 3 then
      var n: int := ((bytes[0] as int - 0xE0) * 0x40 + (bytes[1] as int - 0x80)) * 0x40 + (bytes[2] as int - 0x80);
      if n < 0x800 || (0xD800 <= n < 0xE000) then None else Some(n as char)
    else if !IsContinuation(bytes[3]) then None
    else
      var n: int := (((bytes[0] as int - 0xF0) * 0x40 + (bytes[1] as int - 0x80)) * 0x40 + (bytes[2] as int - 0x80)) * 0x40
        + (bytes[3] as int - 0x80);
      if n < 0x10000 || n > 0x10FFFF then None else Some(n as char)
  }

  /** `%XX` for one byte. */
  function Escape(b: Byte): string {
    ['%', HexDigit(b / 16), HexDigit(b % 16)]
  }

  function Escapes(bytes: seq<Byte>): (s: string)
    ensures |s| == 3 * |bytes|
  {
    if bytes == [] then [] else Escape(bytes[0]) + Escapes(bytes[1..])
  }

  function EncodeChar(c: char): string {
    if IsUnreserved(c) then [c] else Escapes(Utf8(c))
  }

  /** `encodeURIComponent(s)`. */
  function Encode(s: string): (r: string)
    ensures forall i :: 0 <= i < |r| ==> IsUnreserved(r[i]) || r[i] == '%'
  {
    if s == [] then []
    else
      var head, tail := EncodeChar(s[0]), Encode(s[1..]);
      assert forall i :: 0 <= i < |head| ==> IsUnreserved(head[i]) || head[i] == '%' by {
        if !IsUnreserved(s[0]) {
          EscapesAlphabet(Utf8(s[0]));
        }
      }
      head + tail
  }

  lemma {:induction false} EscapesAlphabet(bytes: seq<Byte>)
    ensures forall i :: 0 <= i < |Escapes(bytes)| ==> IsUnreserved(Escapes(bytes)[i]) || Escapes(bytes)[i] == '%'
  {
    if bytes != [] {
      EscapesAlphabet(bytes[1..]);
      var e, rest := Escape(bytes[0]), Escapes(bytes[1..]);
      assert Escapes(bytes) == e + rest;
      forall i | 0 <= i < |Escapes(bytes)| ensures IsUnreserved(Escapes(bytes)[i]) || Escapes(bytes)[i] == '%' {
        if i >= 3 {
          assert Escapes(bytes)[i] == rest[i - 3];
        }
      }
    }
  }

  /** The byte written as `%XX` at the start of `s`, if one is. */
  function EscapedByte(s: string): (r: Option<Byte>)
  {
    if |s| < 3 || s[0] != '%' then None
    else
      match (HexValue(s[1]), HexValue(s[2]))
      case (Some(high), Some(low)) => Some(high * 16 + low)
      case _ => None
  }

  /** The bytes of `count` escapes at the start of `s`, or None when they are not all there. */
  function EscapedBytes(s: string, count: nat): (r: Option<seq<Byte>>)
    ensures r.Some? ==> |r.value| == count && 3 * count <= |s|
    decreases count
  {
    if count == 0 then Some([])
    else
      match EscapedByte(s)
      case None => None
      case Some(b) =>
        match EscapedBytes(s[3..], count - 1)
        case None => None
        case Some(rest) => Some([b] + rest)
  }

  /**
   * The character the escapes at the start of `s` encode, with the number of
   * characters they take up; None is a URIError.
   */
  function DecodeEscape(s: string): (r: Option<(char, nat)>)
    ensures r.Some? ==> 3 <= r.value.1 <= |s|
  {
    match EscapedByte(s)
    case None => None
    case Some(first) =>
      var n := SequenceLength(first);
      if n == 0 then None
      else
        match EscapedBytes(s, n)
        case None => None
        case Some(bytes) =>
          match Utf8Decode(bytes)
          case None => None
          case Some(c) => Some((c, 3 * n))
  }

  /** `decodeURIComponent(s)`, with None for the URIError it throws. */
  function Decode(s: string): Option<string>
    decreases |s|
  {
    if s == [] then Some([])
    else if s[0] != '%' then
      match Decode(s[1..])
      case None => None
      case Some(t) => Some([s[0]] + t)
    else
      match DecodeEscape(s)
      case None => None
      case Some((c, k)) =>
        match Decode(s[k..])
        case None => None
        case Some(t) => Some([c] + t)
  }

  /** Text followed by the decoding of the rest, or the rest's URIError. */
  function Prepend(t: string, r: Option<string>): Option<string> {
    match r
    case None => None
    case Some(u) => Some(t + u)
  }

  lemma HexRoundTrip(n: int)
    requires 0 <= n < 16
    ensures HexValue(HexDigit(n)) == Some(n)
  {
  }

  /** An escape written by the encoder reads back as its byte. */
  lemma EscapeRoundTrip(b: Byte, rest: string)
    ensures EscapedByte(Escape(b) + rest) == Some(b)
  {
    HexRoundTrip(b / 16);
    HexRoundTrip(b % 16);
  }

  lemma {:induction false} EscapesRoundTrip(bytes: seq<Byte>, rest: string)
    ensures EscapedBytes(Escapes(bytes) + rest, |bytes|) == Some(bytes)
    decreases |bytes|
  {
    if bytes != [] {
      var s := Escapes(bytes) + rest;
      assert s == Escape(bytes[0]) + (Escapes(bytes[1..]) + rest);
      EscapeRoundTrip(bytes[0], Escapes(bytes[1..]) + rest);
      assert s[3..] == Escapes(bytes[1..]) + rest;
      EscapesRoundTrip(bytes[1..], rest);
      assert [bytes[0]] + bytes[1..] == bytes;
    }
  }

  /** Decoding undoes the UTF-8 encoding of every character. */
  lemma Utf8RoundTrip(c: char)
    ensures SequenceLength(Utf8(c)[0]) == |Utf8(c)|
    ensures Utf8Decode(Utf8(c)) == Some(c)
  {
    var n := c as int;
    var n6 := n / 0x40;
    var n12 := n6 / 0x40;
    var n18 := n12 / 0x40;
    assert n == n6 * 0x40 + n % 0x40;
    assert n6 == n12 * 0x40 + n6 % 0x40;
    assert n12 == n18 * 0x40 + n12 % 0x40;
  }

  /** The escapes of a character decode to that character. */
  lemma EscapedCharRoundTrip(c: char, rest: string)
    ensures DecodeEscape(Escapes(Utf8(c)) + rest) == Some((c, 3 * |Utf8(c)|))
  {
    var bytes := Utf8(c);
    var s := Escapes(bytes) + rest;
    assert s == Escape(bytes[0]) + (Escapes(bytes[1..]) + rest);
    EscapeRoundTrip(bytes[0], Escapes(bytes[1..]) + rest);
    EscapesRoundTrip(bytes, rest);
    Utf8RoundTrip(c);
  }

  /** Decoding the encoding of one character and then more text. */
  lemma DecodeEncodeChar(c: char, rest: string)
    ensures Decode(EncodeChar(c) + rest) == Prepend([c], Decode(rest))
  {
    var s := EncodeChar(c) + rest;
    if IsUnreserved(c) {
      assert s[1..] == rest;
    } else {
      EscapedCharRoundTrip(c, rest);
      assert s[3 * |Utf8(c)|..] == rest;
    }
  }

  /** Decoding the encoding of `s` and then more text. */
  lemma {:induction false} DecodeEncodeThen(s: string, rest: string)
    ensures Decode(Encode(s) + rest) == Prepend(s, Decode(rest))
    decreases |s|
  {
    if s != [] {
      assert Encode(s) + rest == EncodeChar(s[0]) + (Encode(s[1..]) + rest);
      DecodeEncodeChar(s[0], Encode(s[1..]) + rest);
      DecodeEncodeThen(s[1..], rest);
      PrependTwice([s[0]], s[1..], Decode(rest));
      assert [s[0]] + s[1..] == s;
    } else {
      assert Encode(s) + rest == rest;
      PrependNothing(Decode(rest));
    }
  }

  /** `decodeURIComponent(encodeURIComponent(s)) === s`. */
  lemma DecodeEncode(s: string)
    ensures Decode(Encode(s)) == Some(s)
  {
    DecodeEncodeThen(s, []);
    assert Encode(s) + [] == Encode(s);
    assert s + [] == s;
  }

  /**
   * Decoding never lengthens the text (an escape run of three or more
   * characters stands for one character), and it gives the empty string
   * exactly for the empty string.
   */
  lemma {:induction false} DecodeShortens(s: string)
    ensures Decode(s).Some? ==> |Decode(s).value| <= |s|
    ensures Decode(s) == Some([]) <==> s == []
    decreases |s|
  {
    if s != [] {
      if s[0] != '%' {
        DecodeShortens(s[1..]);
      } else if DecodeEscape(s).Some? {
        DecodeShortens(s[DecodeEscape(s).value.1..]);
      }
    }
  }

  /** Text without `%` decodes to itself, whatever follows it. */
  lemma {:induction false} DecodePlainThen(s: string, rest: string)
    requires '%' !in s
    ensures Decode(s + rest) == Prepend(s, Decode(rest))
    decreases |s|
  {
    if s != [] {
      assert '%' !in s[1..];
      assert (s + rest)[1..] == s[1..] + rest;
      DecodePlainThen(s[1..], rest);
      PrependTwice([s[0]], s[1..], Decode(rest));
      assert [s[0]] + s[1..] == s;
    } else {
      assert s + rest == rest;
      PrependNothing(Decode(rest));
    }
  }

  lemma PrependTwice(a: string, b: string, r: Option<string>)
    ensures Prepend(a, Prepend(b, r)) == Prepend(a + b, r)
  {
    if r.Some? {
      assert a + (b + r.value) == (a + b) + r.value;
    }
  }

  lemma PrependNothing(r: Option<string>)
    ensures Prepend([], r) == r
  {
    if r.Some? {
      assert [] + r.value == r.value;
    }
  }

  /** Text without `%` decodes to itself. */
  lemma DecodePlain(s: string)
    requires '%' !in s
    ensures Decode(s) == Some(s)
  {
    DecodePlainThen(s, []);
    assert s + [] == s;
  }

  /** Encoding distributes over concatenation. */
  lemma {:induction false} EncodeConcat(a: string, b: string)
    ensures Encode(a + b) == Encode(a) + Encode(b)
    decreases |a|
  {
    if a != [] {
      assert (a + b)[0] == a[0] && (a + b)[1..] == a[1..] + b;
      EncodeConcat(a[1..], b);
    } else {
      assert a + b == b;
    }
  }

  /** A `%` not followed by two hexadecimal digits is a URIError. */
  lemma MalformedEscape(s: string)
    requires |s| >= 1 && s[0] == '%'
    requires |s| < 3 || HexValue(s[1]).None? || HexValue(s[2]).None?
    ensures Decode(s) == None
  {
  }

  /** An escaped byte that cannot start a UTF-8 sequence is a URIError, as in "%80" or "%FF". */
  lemma StrayByte(s: string)
    requires EscapedByte(s).Some? && SequenceLength(EscapedByte(s).value) == 0
    ensures Decode(s) == None
  {
  }
}
