/**
 * The page's cookies (script.js, `setCookie`, `eraseCookie`, `getCookie`).
 * The browser keeps one value per name and lists the pairs in
 * `document.cookie` in creation order; overwriting a cookie keeps its place
 * (section 5.3 of RFC 6265, step 11). `setCookie` stores the value as
 * `encodeURIComponent` gives it, and `eraseCookie` makes the cookie expire at
 * once, which removes it. Lookups read the header with the corrected
 * `CookieValue`.
 */
module CookieJar {
  import opened Wrappers
  import opened Strings
  import opened UriCoding
  import opened Cookies

  /** The creation order after storing `name`: a new name goes last, an existing one stays where it is. */
  function Placed(order: seq<string>, name: string): (r: seq<string>)
    ensures name in r && |order| <= |r|
    ensures forall n :: n in r <==> n in order || n == name
    ensures name in order ==> r == order
    ensures name !in order ==> r == order + [name]
    ensures forall i :: 0 <= i < |order| ==> r[i] == order[i]
  {
    if name in order then order else order + [name]
  }

  /** The creation order after removing `name`, the others keeping their relative order. */
  function Removed(order: seq<string>, name: string): (r: seq<string>)
    ensures forall n :: n in r <==> n in order && n != name
    ensures forall i :: 0 <= i < |r| ==> r[i] in order && r[i] != name
    ensures name !in order ==> r == order
  {
    if order == [] then []
    else if order[0] == name then Removed(order[1..], name)
    else [order[0]] + Removed(order[1..], name)
  }

  predicate Distinct(names: seq<string>) {
    forall i, j :: 0 <= i < j < |names| ==> names[i] != names[j]
  }

  /** Removing a name from a list of distinct names leaves them distinct. */
  lemma {:induction false} RemovedDistinct(order: seq<string>, name: string)
    requires Distinct(order)
    ensures Distinct(Removed(order, name))
  {
    if order != [] {
      RemovedDistinct(order[1..], name);
      var rest := Removed(order[1..], name);
      if order[0] != name {
        assert order[0] !in order[1..];
        assert order[0] !in rest;
        var r := [order[0]] + rest;
        forall i, j | 0 <= i < j < |r| ensures r[i] != r[j] {
          assert r[j] == rest[j - 1];
          if i == 0 {
            assert r[0] == order[0];
            assert rest[j - 1] in rest;
          } else {
            assert r[i] == rest[i - 1];
          }
        }
      }
    }
  }

  /** The names after the first of a distinct list are distinct and differ from the first. */
  lemma DistinctTail(order: seq<string>)
    requires Distinct(order) && order != []
    ensures Distinct(order[1..]) && order[0] !in order[1..]
  {
    forall i | 0 <= i < |order[1..]| ensures order[1..][i] != order[0] {
      assert order[1..][i] == order[i + 1];
    }
  }

  /**
   * Erasing a name the order holds once cuts it out of its place: the names
   * before it and the names after it stay as they were, in the same order.
   */
  lemma {:induction false} RemovedKeepsOrder(order: seq<string>, name: string) returns (k: nat)
    requires Distinct(order) && name in order
    ensures k < |order| && order[k] == name
    ensures Removed(order, name) == order[..k] + order[k + 1..]
  {
    DistinctTail(order);
    var tail := order[1..];
    if order[0] == name {
      assert Removed(order, name) == Removed(tail, name) == tail;
      CutFirst(order);
      k := 0;
    } else {
      assert name in tail by {
        assert order == [order[0]] + tail;
      }
      var j := RemovedKeepsOrder(tail, name);
      k := j + 1;
      var rest := Removed(tail, name);
      assert Removed(order, name) == [order[0]] + rest;
      assert rest == tail[..j] + tail[j + 1..];
      CutAfterFirst(order, j);
    }
  }

  /** Cutting out the first element leaves the tail. */
  lemma CutFirst<T>(s: seq<T>)
    requires s != []
    ensures s[..0] + s[1..] == s[1..]
  {
  }

  /** Cutting element `j` out of the tail and putting the head back is cutting element `j + 1` out of the list. */
  lemma CutAfterFirst<T>(s: seq<T>, j: nat)
    requires j < |s| - 1
    ensures s[j + 1] == s[1..][j]
    ensures [s[0]] + (s[1..][..j] + s[1..][j + 1..]) == s[..j + 1] + s[j + 2..]
  {
    assert s[..j + 1] == [s[0]] + s[1..][..j];
    assert s[j + 2..] == s[1..][j + 1..];
  }

  /** `setCookie` keeps the jar well formed. */
  lemma SetWellFormed(order: seq<string>, values: map<string, string>, name: string, value: string)
    requires WellFormed(order, values) && ValidName(name)
    ensures WellFormed(Placed(order, name), values[name := Encode(value)])
  {
    EncodedIsValidRaw(value);
  }

  /** `eraseCookie` keeps the jar well formed. */
  lemma EraseWellFormed(order: seq<string>, values: map<string, string>, name: string)
    requires WellFormed(order, values)
    ensures WellFormed(Removed(order, name), values - {name})
  {
    RemovedDistinct(order, name);
  }

  /** After `setCookie(name, value)` the cookie reads back as `value`. */
  lemma SetThenGet(order: seq<string>, values: map<string, string>, name: string, value: string)
    requires WellFormed(order, values) && ValidName(name)
    ensures WellFormed(Placed(order, name), values[name := Encode(value)])
    ensures CookieValue(Header(Placed(order, name), values[name := Encode(value)]), name) == Value(value)
  {
    var order', values' := Placed(order, name), values[name := Encode(value)];
    SetWellFormed(order, values, name, value);
    HeaderLookup(order', values', name);
    ReadEncoded(value);
  }

  /** `setCookie(name, value)` changes what no other cookie reads. */
  lemma SetKeepsOthers(order: seq<string>, values: map<string, string>, name: string, value: string, other: string)
    requires WellFormed(order, values) && ValidName(name) && ValidName(other) && other != name
    ensures CookieValue(Header(Placed(order, name), values[name := Encode(value)]), other)
         == CookieValue(Header(order, values), other)
  {
    var order', values' := Placed(order, name), values[name := Encode(value)];
    SetThenGet(order, values, name, value);
    HeaderLookup(order', values', other);
    HeaderLookup(order, values, other);
  }

  /** After `eraseCookie(name)` the cookie reads as null. */
  lemma EraseThenGet(order: seq<string>, values: map<string, string>, name: string)
    requires WellFormed(order, values) && ValidName(name)
    ensures WellFormed(Removed(order, name), values - {name})
    ensures CookieValue(Header(Removed(order, name), values - {name}), name) == NoCookie
  {
    var order', values' := Removed(order, name), values - {name};
    EraseWellFormed(order, values, name);
    HeaderLookup(order', values', name);
  }

  /** `eraseCookie(name)` changes what no other cookie reads. */
  lemma EraseKeepsOthers(order: seq<string>, values: map<string, string>, name: string, other: string)
    requires WellFormed(order, values) && ValidName(name) && ValidName(other) && other != name
    ensures CookieValue(Header(Removed(order, name), values - {name}), other)
         == CookieValue(Header(order, values), other)
  {
    var order', values' := Removed(order, name), values - {name};
    EraseThenGet(order, values, name);
    HeaderLookup(order', values', other);
    HeaderLookup(order, values, other);
  }

  /** The browser's cookie store for the page. */
  class Jar {
    /** The names, in creation order. */
    var order: seq<string>
    /** The stored (encoded) value of each cookie. */
    var values: map<string, string>

    ghost predicate Valid()
      reads this
    {
      && WellFormed(order, values)
      && forall n :: n in values ==> n in order
    }

    /** A jar with no cookies. */
    constructor ()
      ensures Valid() && order == [] && values == map[]
    {
      order := [];
      values := map[];
    }

    /** `document.cookie`. */
    function Text(): string
      reads this
      requires Valid()
    {
      Header(order, values)
    }

    /** `getCookie(name)`, splitting before decoding. */
    method GetCookie(name: string) returns (r: CookieRead)
      requires Valid()
      ensures r == CookieValue(Text(), name)
    {
      r := Cookies.GetCookie(Header(order, values), name);
    }

    /** `setCookie(name, value, days)`: the expiry is not modelled. */
    method SetCookie(name: string, value: string)
      requires Valid() && ValidName(name)
      modifies this
      ensures Valid()
      ensures order == Placed(old(order), name)
      ensures values == old(values)[name := Encode(value)]
    {
      SetWellFormed(order, values, name, value);
      if name !in order {
        order := order + [name];
      }
      values := values[name := Encode(value)];
    }

    /** `eraseCookie(name)`: the cookie expires at once and is removed. */
    method EraseCookie(name: string)
      requires Valid()
      modifies this
      ensures Valid()
      ensures order == Removed(old(order), name)
      ensures values == old(values) - {name}
    {
      EraseWellFormed(order, values, name);
      order := Removed(order, name);
      values := values - {name};
    }
  }
}
