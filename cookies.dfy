/**
 * Reading `document.cookie` (script.js, `getCookie`): the header lists the
 * page's cookies as `name=value` pairs separated by "; ", and a lookup takes
 * the first pair whose trimmed text starts with `name=`. The script decodes
 * the whole header before splitting it, which lets an encoded `;` inside one
 * value split that value and forge a pair (`CookieValueAsWritten`); the
 * model's lookup splits first and decodes only the value (`CookieValue`).
 */
module Cookies {
  import opened Wrappers
  import opened Strings
  import opened UriCoding

  /** What `getCookie` gives back: a value, null, or the URIError of `decodeURIComponent`. */
  datatype CookieRead = Value(value: string) | NoCookie | UriError

  /** A cookie name the lookup can find unambiguously: no separator, no `=`, no whitespace. */
  predicate ValidName(name: string) {
    && name != []
    && forall i :: 0 <= i < |name| ==> name[i] != ';' && name[i] != '=' && !IsWhitespace(name[i])
  }

  /** A stored value as the header shows it: no `;`, and no whitespace at its end. */
  predicate ValidRaw(raw: string) {
    && ';' !in raw
    && (raw == [] || !IsWhitespace(raw[|raw| - 1]))
  }

  /** The cookie's pair in the header. */
  function Pair(name: string, raw: string): string {
    name + "=" + raw
  }

  /** Every part trimmed. */
  function TrimAll(parts: seq<string>): (r: seq<string>)
    ensures |r| == |parts|
  {
    seq(|parts|, i requires 0 <= i < |parts| => Trim(parts[i]))
  }

  /** The index of the first item that starts with `prefix` (`indexOf(prefix) === 0`). */
  function FirstWithPrefix(items: seq<string>, prefix: string): (r: Option<nat>)
    ensures r.None? <==> forall i :: 0 <= i < |items| ==> !StartsWith(items[i], prefix)
    ensures r.Some? ==> r.value < |items| && StartsWith(items[r.value], prefix)
    ensures r.Some? ==> forall j :: 0 <= j < r.value ==> !StartsWith(items[j], prefix)
  {
    if items == [] then None
    else if StartsWith(items[0], prefix) then Some(0)
    else
      match FirstWithPrefix(items[1..], prefix)
      case None => None
      case Some(i) => Some(i + 1)
  }

  /** What follows `prefix` in the first trimmed part that starts with it. */
  function ValueAfter(parts: seq<string>, prefix: string): Option<string> {
    var trimmed := TrimAll(parts);
    match FirstWithPrefix(trimmed, prefix)
    case None => None
    case Some(i) => Some(trimmed[i][|prefix|..])
  }

  /** The loop of `getCookie`: trim each part and return what follows the prefix in the first that starts with it. */
  method FindValue(parts: seq<string>, prefix: string) returns (r: Option<string>)
    ensures r == ValueAfter(parts, prefix)
  {
    ghost var trimmed := TrimAll(parts);
    var i := 0;
    while i < |parts|
      invariant 0 <= i <= |parts|
      invariant forall j :: 0 <= j < i ==> !StartsWith(trimmed[j], prefix)
    {
      var p := Trim(parts[i]);
      assert p == trimmed[i];
      if |prefix| <= |p| && p[..|prefix|] == prefix {
        FirstAt(trimmed, prefix, i);
        return Some(p[|prefix|..]);
      }
      i := i + 1;
    }
    return None;
  }

  /** An item with the prefix and none before it is the first. */
  lemma FirstAt(items: seq<string>, prefix: string, i: nat)
    requires i < |items| && StartsWith(items[i], prefix)
    requires forall j :: 0 <= j < i ==> !StartsWith(items[j], prefix)
    ensures FirstWithPrefix(items, prefix) == Some(i)
  {
    var r := FirstWithPrefix(items, prefix);
    assert r.Some?;
    assert !(r.value < i);
  }

  /** `getCookie(name)` as the script writes it: decode the whole header, then split it. */
  function CookieValueAsWritten(header: string, name: string): CookieRead {
    match Decode(header)
    case None => UriError
    case Some(decoded) =>
      match ValueAfter(Split(decoded, ';'), name + "=")
      case None => NoCookie
      case Some(v) => Value(v)
  }

  /** `getCookie(name)` splitting the raw header and decoding only the value found. */
  function CookieValue(header: string, name: string): CookieRead {
    match ValueAfter(Split(header, ';'), name + "=")
    case None => NoCookie
    case Some(raw) =>
      match Decode(raw)
      case None => UriError
      case Some(v) => Value(v)
  }

  method GetCookieAsWritten(header: string, name: string) returns (r: CookieRead)
    ensures r == CookieValueAsWritten(header, name)
  {
    var decoded := Decode(header);
    if decoded.None? {
      return UriError;
    }
    var found := FindValue(Split(decoded.value, ';'), name + "=");
    r := if found.Some? then Value(found.value) else NoCookie;
  }

  method GetCookie(header: string, name: string) returns (r: CookieRead)
    ensures r == CookieValue(header, name)
  {
    var found := FindValue(Split(header, ';'), name + "=");
    if found.None? {
      return NoCookie;
    }
    var decoded := Decode(found.value);
    r := if decoded.Some? then Value(decoded.value) else UriError;
  }

  /** What a lookup reads from a stored value. */
  function Read(raw: string): CookieRead {
    match Decode(raw)
    case None => UriError
    case Some(v) => Value(v)
  }

  /** The cookies of the jar are well formed: distinct valid names, each with a stored value. */
  predicate WellFormed(order: seq<string>, values: map<string, string>) {
    && (forall i, j :: 0 <= i < j < |order| ==> order[i] != order[j])
    && (forall i :: 0 <= i < |order| ==> ValidName(order[i]) && order[i] in values && ValidRaw(values[order[i]]))
  }

  /** The value stored under `name`; a name the map lacks shows an empty value. */
  function RawOf(values: map<string, string>, name: string): string {
    if name in values then values[name] else ""
  }

  /** The header's parts: the pairs in order, each after the first behind the space of "; ". */
  function Segments(order: seq<string>, values: map<string, string>): (r: seq<string>)
    ensures |r| == |order|
  {
    seq(|order|, i requires 0 <= i < |order| => (if i == 0 then "" else " ") + Pair(order[i], RawOf(values, order[i])))
  }

  /** `document.cookie`: the pairs in creation order, separated by "; ". */
  function Header(order: seq<string>, values: map<string, string>): string {
    if order == [] then "" else Join(Segments(order, values), ';')
  }

  /** A pair of a valid name and a valid value has no whitespace at either end. */
  lemma PairTrimmed(name: string, raw: string)
    requires ValidName(name) && ValidRaw(raw)
    ensures IsTrimmed(Pair(name, raw))
    ensures ';' !in Pair(name, raw)
  {
    var p := Pair(name, raw);
    assert p[0] == name[0];
    assert raw != [] ==> p[|p| - 1] == raw[|raw| - 1];
    forall i | 0 <= i < |p| ensures p[i] != ';' {
      if i < |name| {
        assert p[i] == name[i];
      } else if i > |name| {
        assert p[i] == raw[i - |name| - 1];
      }
    }
  }

  /** A pair starts with `name=` exactly when it is the pair of `name`. */
  lemma PairPrefix(n: string, raw: string, name: string)
    requires ValidName(n) && ValidName(name)
    ensures StartsWith(Pair(n, raw), name + "=") <==> n == name
  {
    var p, prefix := Pair(n, raw), name + "=";
    if n == name {
      assert p[..|prefix|] == prefix;
    }
    if StartsWith(p, prefix) {
      // both names end where the first `=` of the pair stands
      assert p[|name|] == '=' && forall i :: 0 <= i < |name| ==> p[i] == name[i];
      assert p[|n|] == '=' && forall i :: 0 <= i < |n| ==> p[i] == n[i];
      assert |n| == |name|;
      assert n == p[..|n|] == name;
    }
  }

  /** The pairs of the jar, in order. */
  function Pairs(order: seq<string>, values: map<string, string>): (r: seq<string>)
    ensures |r| == |order|
  {
    seq(|order|, i requires 0 <= i < |order| => Pair(order[i], RawOf(values, order[i])))
  }

  /** Splitting the header and trimming each part gives back the pairs. */
  lemma HeaderParts(order: seq<string>, values: map<string, string>)
    requires WellFormed(order, values) && order != []
    ensures TrimAll(Split(Header(order, values), ';')) == Pairs(order, values)
  {
    var segments := Segments(order, values);
    forall i | 0 <= i < |order|
      ensures ';' !in segments[i]
      ensures Trim(segments[i]) == Pairs(order, values)[i]
    {
      var p := Pair(order[i], values[order[i]]);
      PairTrimmed(order[i], values[order[i]]);
      if i == 0 {
        assert segments[i] == p;
        TrimOfTrimmed(p);
      } else {
        assert segments[i] == " " + p;
        TrimAfterSpace(p);
      }
    }
    SplitJoin(segments, ';');
  }

  /** Among the pairs, the first to start with `name=` is the pair of `name`, if there is one. */
  lemma FirstPair(order: seq<string>, values: map<string, string>, name: string)
    requires WellFormed(order, values) && ValidName(name)
    ensures name !in order ==> FirstWithPrefix(Pairs(order, values), name + "=").None?
    ensures forall k :: 0 <= k < |order| && order[k] == name ==> FirstWithPrefix(Pairs(order, values), name + "=") == Some(k)
  {
    var pairs, prefix := Pairs(order, values), name + "=";
    forall i | 0 <= i < |order| ensures StartsWith(pairs[i], prefix) <==> order[i] == name {
      PairPrefix(order[i], values[order[i]], name);
    }
    forall k | 0 <= k < |order| && order[k] == name ensures FirstWithPrefix(pairs, prefix) == Some(k) {
      FirstAt(pairs, prefix, k);
    }
  }

  lemma PairValue(name: string, raw: string)
    ensures Pair(name, raw)[|name + "="|..] == raw
  {
  }

  /** With no cookie of that name, the corrected lookup's search finds nothing. */
  lemma HeaderMissing(order: seq<string>, values: map<string, string>, name: string)
    requires WellFormed(order, values) && ValidName(name) && name !in order
    ensures ValueAfter(Split(Header(order, values), ';'), name + "=").None?
  {
    if order == [] {
      assert Split("", ';') == [""];
      assert !StartsWith(TrimAll([""])[0], name + "=");
    } else {
      HeaderParts(order, values);
      FirstPair(order, values, name);
    }
  }

  /** The corrected lookup's search finds the raw value stored under the name. */
  lemma HeaderFinds(order: seq<string>, values: map<string, string>, name: string, k: nat)
    requires WellFormed(order, values) && ValidName(name) && k < |order| && order[k] == name
    ensures ValueAfter(Split(Header(order, values), ';'), name + "=") == Some(values[name])
  {
    HeaderParts(order, values);
    FirstPair(order, values, name);
    PairValue(name, values[name]);
  }

  /**
   * Reading a cookie back from the header gives the decoding of the value
   * stored under that name, and null for a name with no cookie.
   */
  lemma HeaderLookup(order: seq<string>, values: map<string, string>, name: string)
    requires WellFormed(order, values) && ValidName(name)
    ensures name !in order ==> CookieValue(Header(order, values), name) == NoCookie
    ensures name in order ==> CookieValue(Header(order, values), name) == Read(values[name])
  {
    if name in order {
      var k :| 0 <= k < |order| && order[k] == name;
      HeaderFinds(order, values, name, k);
    } else {
      HeaderMissing(order, values, name);
    }
  }

  /** Reading a value that was stored encoded gives the value back. */
  lemma ReadEncoded(v: string)
    ensures Read(Encode(v)) == Value(v)
  {
    DecodeEncode(v);
  }

  /** An encoded value can be stored: it has no `;` and no whitespace at all. */
  lemma EncodedIsValidRaw(v: string)
    ensures ValidRaw(Encode(v))
    ensures forall i :: 0 <= i < |Encode(v)| ==> Encode(v)[i] != ';' && !IsWhitespace(Encode(v)[i])
  {
    var e := Encode(v);
    assert forall i :: 0 <= i < |e| ==> e[i] != ';' && !IsWhitespace(e[i]);
  }

  /** On a header with no escapes the script's lookup and the corrected one agree. */
  lemma AgreeWithoutEscapes(header: string, name: string)
    requires '%' !in header
    ensures CookieValueAsWritten(header, name) == CookieValue(header, name)
  {
    DecodePlain(header);
    var parts := Split(header, ';');
    var prefix := name + "=";
    match FirstWithPrefix(TrimAll(parts), prefix)
    case None =>
    case Some(i) =>
      var raw := Trim(parts[i])[|prefix|..];
      assert '%' !in raw by {
        PartsWithin(parts, ';', i);
        TrimWithin(parts[i]);
      }
      DecodePlain(raw);
  }

  /** Every character of a part is a character of the joined text. */
  lemma {:induction false} PartsWithin(parts: seq<string>, sep: char, i: nat)
    requires |parts| >= 1 && i < |parts|
    ensures forall c :: c in parts[i] ==> c in Join(parts, sep)
    decreases i
  {
    if i > 0 {
      PartsWithin(parts[1..], sep, i - 1);
      assert Join(parts, sep) == parts[0] + [sep] + Join(parts[1..], sep);
    }
  }

  /** Every character of the trimmed text is a character of the text. */
  lemma TrimWithin(s: string)
    ensures forall c :: c in Trim(s) ==> c in s
  {
    var k := TrimIsSlice(s);
  }

  /** The header of a jar holding `a` and then `b`. */
  lemma HeaderOfTwo(a: string, b: string, va: string, vb: string)
    requires a != b
    ensures Header([a, b], map[a := va, b := vb]) == Pair(a, va) + "; " + Pair(b, vb)
  {
    var order, values := [a, b], map[a := va, b := vb];
    var segments := Segments(order, values);
    assert segments[0] == Pair(a, va);
    assert segments[1] == " " + Pair(b, vb);
    assert Join(segments, ';') == Pair(a, va) + [';'] + Join(segments[1..], ';');
    assert Join(segments[1..], ';') == " " + Pair(b, vb);
  }

  lemma Regroup(a: string, va: string, b: string, vb: string)
    ensures Pair(a, va) + "; " + Pair(b, vb) == (a + "=") + (va + (("; " + b + "=") + vb))
  {
  }

  /** What `decodeURIComponent` makes of that header when both values were stored encoded. */
  lemma DecodeHeaderOfTwo(a: string, b: string, va: string, vb: string)
    requires '%' !in a && '%' !in b
    ensures Decode(Pair(a, Encode(va)) + "; " + Pair(b, Encode(vb))) == Some(Pair(a, va) + "; " + Pair(b, vb))
  {
    var ea, eb := Encode(va), Encode(vb);
    var head, tail := a + "=", "; " + b + "=";
    assert '%' !in tail;
    assert '%' !in head;
    var decodedTail := Decode(tail + eb);
    assert decodedTail == Some(tail + vb) by {
      DecodePlainThen(tail, eb);
      DecodeEncode(vb);
    }
    var decodedRest := Decode(ea + (tail + eb));
    assert decodedRest == Some(va + (tail + vb)) by {
      DecodeEncodeThen(va, tail + eb);
    }
    assert Decode(head + (ea + (tail + eb))) == Some(head + (va + (tail + vb))) by {
      DecodePlainThen(head, ea + (tail + eb));
    }
    Regroup(a, ea, b, eb);
    Regroup(a, va, b, vb);
  }

  /** The decoded header of a forged pair joins three parts. */
  lemma JoinForged(a: string, b: string, x: string, y: string, z: string)
    ensures Join([Pair(a, x), Pair(b, y), " " + Pair(b, z)], ';')
         == Pair(a, x + ";" + b + "=" + y) + "; " + Pair(b, z)
  {
    var p, q, r := Pair(a, x), Pair(b, y), " " + Pair(b, z);
    var parts := [p, q, r];
    assert parts[1..] == [q, r];
    assert [q, r][1..] == [r];
    assert Join([r], ';') == r;
    assert Join([q, r], ';') == q + [';'] + r;
    assert Join(parts, ';') == p + [';'] + (q + [';'] + r);
  }

  lemma TrimThree(p: string, q: string, r: string)
    ensures TrimAll([p, q, r]) == [Trim(p), Trim(q), Trim(r)]
  {
    var t := TrimAll([p, q, r]);
    assert t[0] == Trim(p) && t[1] == Trim(q) && t[2] == Trim(r);
  }

  /** The decoded header of a forged pair, split and trimmed, shows three pairs. */
  lemma SplitForged(a: string, b: string, x: string, y: string, z: string)
    requires ValidName(a) && ValidName(b)
    requires ValidRaw(x) && ValidRaw(y) && ValidRaw(z)
    ensures TrimAll(Split(Pair(a, x + ";" + b + "=" + y) + "; " + Pair(b, z), ';'))
         == [Pair(a, x), Pair(b, y), Pair(b, z)]
  {
    var p, q, r := Pair(a, x), Pair(b, y), " " + Pair(b, z);
    PairTrimmed(a, x);
    PairTrimmed(b, y);
    PairTrimmed(b, z);
    assert ';' !in r;
    JoinForged(a, b, x, y, z);
    SplitJoin([p, q, r], ';');
    TrimThree(p, q, r);
    TrimOfTrimmed(p);
    TrimOfTrimmed(q);
    TrimAfterSpace(Pair(b, z));
  }

  /**
   * The script's lookups on a decoded header whose first value holds
   * `;` followed by a pair for `b`: `b` is read from inside `a`'s value and
   * `a`'s value stops at the `;`.
   */
  lemma LookupForged(a: string, b: string, x: string, y: string, z: string)
    requires ValidName(a) && ValidName(b) && a != b
    requires ValidRaw(x) && ValidRaw(y) && ValidRaw(z)
    ensures ValueAfter(Split(Pair(a, x + ";" + b + "=" + y) + "; " + Pair(b, z), ';'), b + "=") == Some(y)
    ensures ValueAfter(Split(Pair(a, x + ";" + b + "=" + y) + "; " + Pair(b, z), ';'), a + "=") == Some(x)
  {
    SplitForged(a, b, x, y, z);
    var trimmed := [Pair(a, x), Pair(b, y), Pair(b, z)];
    FirstOfForged(a, b, x, y, z);
    assert trimmed[1][|b + "="|..] == y;
    assert trimmed[0][|a + "="|..] == x;
  }

  lemma FirstOfForged(a: string, b: string, x: string, y: string, z: string)
    requires ValidName(a) && ValidName(b) && a != b
    ensures FirstWithPrefix([Pair(a, x), Pair(b, y), Pair(b, z)], b + "=") == Some(1)
    ensures FirstWithPrefix([Pair(a, x), Pair(b, y), Pair(b, z)], a + "=") == Some(0)
  {
    var trimmed := [Pair(a, x), Pair(b, y), Pair(b, z)];
    PairPrefix(a, x, b);
    PairPrefix(b, y, b);
    PairPrefix(a, x, a);
    FirstAt(trimmed, b + "=", 1);
    FirstAt(trimmed, a + "=", 0);
  }

  /** The script's lookups on the header of a jar holding a forged pair. */
  lemma ForgedAsWritten(a: string, b: string, x: string, y: string, z: string)
    requires ValidName(a) && ValidName(b) && a != b && '%' !in a && '%' !in b
    requires ValidRaw(x) && ValidRaw(y) && ValidRaw(z)
    ensures var header := Pair(a, Encode(x + ";" + b + "=" + y)) + "; " + Pair(b, Encode(z));
      && CookieValueAsWritten(header, b) == Value(y)
      && CookieValueAsWritten(header, a) == Value(x)
  {
    DecodeHeaderOfTwo(a, b, x + ";" + b + "=" + y, z);
    LookupForged(a, b, x, y, z);
  }

  /** The corrected lookups on the header of any jar holding two encoded values. */
  lemma TwoCookies(a: string, b: string, va: string, vb: string)
    requires ValidName(a) && ValidName(b) && a != b
    ensures var header := Pair(a, Encode(va)) + "; " + Pair(b, Encode(vb));
      && CookieValue(header, a) == Value(va)
      && CookieValue(header, b) == Value(vb)
  {
    var order, values := [a, b], map[a := Encode(va), b := Encode(vb)];
    HeaderOfTwo(a, b, Encode(va), Encode(vb));
    EncodedIsValidRaw(va);
    EncodedIsValidRaw(vb);
    HeaderLookup(order, values, a);
    HeaderLookup(order, values, b);
    ReadEncoded(va);
    ReadEncoded(vb);
  }

  /**
   * A jar holding cookie `a` with value `x;b=y` and then cookie `b` with value
   * `z`, both stored encoded: the script's `getCookie(b)` returns `y`, read
   * from inside a's value, and `getCookie(a)` returns `x`; the corrected
   * lookup returns `z` and `x;b=y`, as stored.
   */
  lemma ForgedPair(a: string, b: string, x: string, y: string, z: string)
    requires ValidName(a) && ValidName(b) && a != b && '%' !in a && '%' !in b
    requires ValidRaw(x) && ValidRaw(y) && ValidRaw(z)
    ensures var header := Header([a, b], map[a := Encode(x + ";" + b + "=" + y), b := Encode(z)]);
      && CookieValueAsWritten(header, b) == Value(y)
      && CookieValueAsWritten(header, a) == Value(x)
      && CookieValue(header, b) == Value(z)
      && CookieValue(header, a) == Value(x + ";" + b + "=" + y)
  {
    HeaderOfTwo(a, b, Encode(x + ";" + b + "=" + y), Encode(z));
    ForgedAsWritten(a, b, x, y, z);
    TwoCookies(a, b, x + ";" + b + "=" + y, z);
  }

  /**
   * The script's lookup of `b` when the first cookie, `a`, holds `x;b=y`:
   * whatever decodable cookies follow, `getCookie(b)` returns `y`.
   */
  lemma ForgedFirst(a: string, b: string, x: string, y: string, rest: string)
    requires ValidName(a) && ValidName(b) && a != b && '%' !in a
    requires ValidRaw(x) && ValidRaw(y) && Decode(rest).Some?
    ensures CookieValueAsWritten(Pair(a, Encode(x + ";" + b + "=" + y)) + ";" + rest, b) == Value(y)
  {
    var r := Decode(rest).value;
    var header := Pair(a, Encode(x + ";" + b + "=" + y)) + ";" + rest;
    var decoded := Pair(a, x) + [';'] + (Pair(b, y) + [';'] + r);
    assert Decode(header) == Some(decoded) by {
      DecodeForgedFirst(a, x + ";" + b + "=" + y, rest);
      ForgedRegroup(a, b, x, y, r);
    }
    LookupForgedFirst(a, b, x, y, r);
  }

  lemma ForgedRegroup(a: string, b: string, x: string, y: string, r: string)
    ensures Pair(a, x + ";" + b + "=" + y) + ";" + r == Pair(a, x) + [';'] + (Pair(b, y) + [';'] + r)
  {
  }

  /** Decoding a header whose first value was stored encoded. */
  lemma DecodeForgedFirst(a: string, v: string, rest: string)
    requires '%' !in a && Decode(rest).Some?
    ensures Decode(Pair(a, Encode(v)) + ";" + rest) == Some(Pair(a, v) + ";" + Decode(rest).value)
  {
    var head, tail, r := a + "=", ";" + rest, Decode(rest).value;
    DecodePlainThen(";", rest);
    assert '%' !in head;
    DecodeBetween(head, v, tail);
    Regroup4(head, Encode(v), ";", rest);
    Regroup4(head, v, ";", r);
  }

  /** Plain text, an encoded value, then a decodable rest. */
  lemma DecodeBetween(head: string, v: string, tail: string)
    requires '%' !in head && Decode(tail).Some?
    ensures Decode(head + (Encode(v) + tail)) == Some(head + (v + Decode(tail).value))
  {
    DecodeEncodeThen(v, tail);
    DecodePlainThen(head, Encode(v) + tail);
  }

  lemma Regroup4<T>(p: seq<T>, q: seq<T>, s: seq<T>, t: seq<T>)
    ensures p + q + s + t == p + (q + (s + t))
  {
  }

  /** A decoded header starting `a=x;b=y;` splits into those two pairs first. */
  lemma SplitForgedFirst(a: string, b: string, x: string, y: string, r: string)
    requires ValidName(a) && ValidName(b)
    requires ValidRaw(x) && ValidRaw(y)
    ensures var parts := Split(Pair(a, x) + [';'] + (Pair(b, y) + [';'] + r), ';');
      |parts| >= 2 && parts[0] == Pair(a, x) && parts[1] == Pair(b, y)
  {
    PairTrimmed(a, x);
    PairTrimmed(b, y);
    SplitFirst(Pair(a, x), ';', Pair(b, y) + [';'] + r);
    SplitFirst(Pair(b, y), ';', r);
  }

  /** On a decoded header starting `a=x;b=y;`, the script's lookup of `b` reads `y`. */
  lemma LookupForgedFirst(a: string, b: string, x: string, y: string, r: string)
    requires ValidName(a) && ValidName(b) && a != b
    requires ValidRaw(x) && ValidRaw(y)
    ensures ValueAfter(Split(Pair(a, x) + [';'] + (Pair(b, y) + [';'] + r), ';'), b + "=") == Some(y)
  {
    var parts := Split(Pair(a, x) + [';'] + (Pair(b, y) + [';'] + r), ';');
    SplitForgedFirst(a, b, x, y, r);
    var trimmed := TrimAll(parts);
    TrimOfTrimmed(Pair(a, x));
    TrimOfTrimmed(Pair(b, y));
    assert trimmed[0] == Pair(a, x) && trimmed[1] == Pair(b, y);
    PairPrefix(a, x, b);
    PairPrefix(b, y, b);
    FirstAt(trimmed, b + "=", 1);
    assert trimmed[1][|b + "="|..] == y;
  }

  /** The header of a jar holding `a`, `b` and then `c`. */
  lemma HeaderOfThree(a: string, b: string, c: string, va: string, vb: string, vc: string)
    requires a != b && a != c && b != c
    ensures Header([a, b, c], map[a := va, b := vb, c := vc])
         == Pair(a, va) + ";" + (" " + Pair(b, vb) + "; " + Pair(c, vc))
  {
    SegmentsOfThree(a, b, c, va, vb, vc);
    JoinThree(Pair(a, va), " " + Pair(b, vb), " " + Pair(c, vc));
    SpaceAfterSeparator(" " + Pair(b, vb), Pair(c, vc));
  }

  /** The segments of a jar holding `a`, `b` and then `c`. */
  lemma SegmentsOfThree(a: string, b: string, c: string, va: string, vb: string, vc: string)
    requires a != b && a != c && b != c
    ensures Segments([a, b, c], map[a := va, b := vb, c := vc])
         == [Pair(a, va), " " + Pair(b, vb), " " + Pair(c, vc)]
  {
    var segments := Segments([a, b, c], map[a := va, b := vb, c := vc]);
    assert segments[0] == Pair(a, va);
    assert segments[1] == " " + Pair(b, vb);
    assert segments[2] == " " + Pair(c, vc);
  }

  /** Three parts joined by `;`. */
  lemma JoinThree(p: string, q: string, r: string)
    ensures Join([p, q, r], ';') == p + ";" + (q + ";" + r)
  {
    assert [p, q, r][1..] == [q, r];
    assert [q, r][1..] == [r];
    assert Join([r], ';') == r;
    assert Join([q, r], ';') == q + [';'] + r;
    assert Join([p, q, r], ';') == p + [';'] + (q + [';'] + r);
  }

  /** `;` followed by a part that starts with a space is the separator "; ". */
  lemma SpaceAfterSeparator(q: string, r: string)
    ensures q + ";" + (" " + r) == q + "; " + r
  {
  }
}
