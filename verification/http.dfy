/** The request and response messages the transport layer passes around
    (`HttpRequestMessage`, `HttpResponseMessage`, their header collections and
    content), as immutable values. */
module Http {
  import opened Wrappers
  import opened Ascii

  newtype uint8 = x: int | 0 <= x < 256

  /** The range of a C# `int`. */
  type Int32 = x: int | -0x8000_0000 <= x < 0x8000_0000

  /** A URI is compared by equality and asked for its host, nothing more;
      scheme, port, path and query are kept together as one opaque string. */
  datatype Uri = Uri(host: string, rest: string)

  /** Hosts compared with `StringComparison.OrdinalIgnoreCase`. */
  predicate SameHost(a: Uri, b: Uri) {
    EqualsIgnoreCase(a.host, b.host)
  }

  /** One entry of an `HttpHeaders` collection: a name and its values in order. */
  datatype Header = Header(name: string, values: seq<string>)

  predicate HasHeader(hs: seq<Header>, name: string) {
    exists i :: 0 <= i < |hs| && EqualsIgnoreCase(hs[i].name, name)
  }

  /** `HttpHeaders` keys its entries by name, ignoring case, so no two entries
      of a real collection share a name. */
  predicate WellFormedHeaders(hs: seq<Header>) {
    forall i, j :: 0 <= i < j < |hs| ==> !EqualsIgnoreCase(hs[i].name, hs[j].name)
  }

  /** `HttpHeaders.Add` / `TryAddWithoutValidation` (header validation aside):
      the values join the existing entry of that name, or open a new entry at
      the end. */
  function AddHeader(hs: seq<Header>, name: string, values: seq<string>): (r: seq<Header>)
    ensures !HasHeader(hs, name) ==> r == hs + [Header(name, values)]
    ensures HasHeader(hs, name) ==> |r| == |hs|
    ensures HasHeader(hs, name) ==>
              forall i :: 0 <= i < |hs| ==> r[i].name == hs[i].name && hs[i].values <= r[i].values
    ensures HasHeader(hs, name) ==>
              exists i :: 0 <= i < |hs| && EqualsIgnoreCase(hs[i].name, name) && r[i].values == hs[i].values + values
    ensures forall i :: 0 <= i < |hs| && !EqualsIgnoreCase(hs[i].name, name) ==> r[i] == hs[i]
  {
    if hs == [] then [Header(name, values)]
    else if EqualsIgnoreCase(hs[0].name, name) then [hs[0].(values := hs[0].values + values)] + hs[1..]
    else [hs[0]] + AddHeader(hs[1..], name, values)
  }

  /** Adds every entry of `src`, in order, to `dst`. */
  function AddAll(dst: seq<Header>, src: seq<Header>): seq<Header>
    decreases |src|
  {
    if src == [] then dst else AddAll(AddHeader(dst, src[0].name, src[0].values), src[1..])
  }

  /** The copy loop `foreach (var h in old) fresh.Add(h.Key, h.Value)` into an
      empty collection. */
  function CopyHeaders(src: seq<Header>): seq<Header> {
    AddAll([], src)
  }

  /** Setting a typed header property to null (`Headers.Authorization = null`)
      removes the entry of that name. */
  function RemoveHeader(hs: seq<Header>, name: string): (r: seq<Header>)
    ensures forall h :: h in r <==> h in hs && !EqualsIgnoreCase(h.name, name)
    ensures !HasHeader(r, name)
    ensures !HasHeader(hs, name) ==> r == hs
    ensures WellFormedHeaders(hs) ==> WellFormedHeaders(r)
    ensures WellFormedHeaders(hs) ==>
              forall k :: 0 <= k < |hs| && EqualsIgnoreCase(hs[k].name, name) ==> r == hs[..k] + hs[k + 1..]
  {
    if hs == [] then []
    else if EqualsIgnoreCase(hs[0].name, name) then
      var t := RemoveHeader(hs[1..], name);
      if WellFormedHeaders(hs) then KeyedFirstMatch(hs, name); t else t
    else
      var t := RemoveHeader(hs[1..], name);
      if WellFormedHeaders(hs) then KeyedPrepend(hs, t); KeyedSplice(hs, t, name); [hs[0]] + t
      else [hs[0]] + t
  }

  /** When the first entry of a keyed collection answers to `name`, no other does. */
  lemma KeyedFirstMatch(hs: seq<Header>, name: string)
    requires WellFormedHeaders(hs) && hs != [] && EqualsIgnoreCase(hs[0].name, name)
    ensures !HasHeader(hs[1..], name)
    ensures forall k :: 0 <= k < |hs| && EqualsIgnoreCase(hs[k].name, name) ==> k == 0
  {
    forall k | 0 <= k < |hs| && EqualsIgnoreCase(hs[k].name, name)
      ensures k == 0
    {
      KeyedEntryIsUnique(hs, name, 0, k);
    }
    forall j | 0 <= j < |hs[1..]|
      ensures !EqualsIgnoreCase(hs[1..][j].name, name)
    {
      assert hs[1..][j] == hs[j + 1];
    }
  }

  /** Putting the first entry of a keyed collection back in front of a keyed
      selection of the rest gives a keyed collection. */
  lemma KeyedPrepend(hs: seq<Header>, t: seq<Header>)
    requires WellFormedHeaders(hs) && hs != []
    requires WellFormedHeaders(t) && forall h :: h in t ==> h in hs[1..]
    ensures WellFormedHeaders([hs[0]] + t)
  {
    var u := [hs[0]] + t;
    forall j | 0 <= j < |t|
      ensures !EqualsIgnoreCase(hs[0].name, t[j].name)
    {
      assert t[j] in hs[1..];
      var b :| 0 <= b < |hs[1..]| && hs[1..][b] == t[j];
      assert hs[b + 1] == t[j];
    }
    forall i, j | 0 <= i < j < |u|
      ensures !EqualsIgnoreCase(u[i].name, u[j].name)
    {
      assert u[j] == t[j - 1];
      if i > 0 { assert u[i] == t[i - 1]; }
    }
  }

  /** The recursive step of removing entry `k` (not the first) of a keyed collection. */
  lemma KeyedSplice(hs: seq<Header>, t: seq<Header>, name: string)
    requires WellFormedHeaders(hs) && hs != [] && !EqualsIgnoreCase(hs[0].name, name)
    requires forall k :: 0 <= k < |hs[1..]| && EqualsIgnoreCase(hs[1..][k].name, name) ==> t == hs[1..][..k] + hs[1..][k + 1..]
    ensures forall k :: 0 <= k < |hs| && EqualsIgnoreCase(hs[k].name, name) ==> [hs[0]] + t == hs[..k] + hs[k + 1..]
  {
    forall k | 0 <= k < |hs| && EqualsIgnoreCase(hs[k].name, name)
      ensures [hs[0]] + t == hs[..k] + hs[k + 1..]
    {
      assert k > 0;
      assert hs[1..][k - 1] == hs[k];
      assert t == hs[1..][..k - 1] + hs[1..][k..];
      assert hs[..k] == [hs[0]] + hs[1..][..k - 1];
      assert hs[k + 1..] == hs[1..][k..];
    }
  }

  /** In a keyed collection at most one entry answers to a given name. */
  lemma KeyedEntryIsUnique(hs: seq<Header>, name: string, i: nat, j: nat)
    requires WellFormedHeaders(hs)
    requires i < |hs| && j < |hs|
    requires EqualsIgnoreCase(hs[i].name, name) && EqualsIgnoreCase(hs[j].name, name)
    ensures i == j
  {
    EqualsIgnoreCaseSymmetric(hs[j].name, name);
    EqualsIgnoreCaseTransitive(hs[i].name, name, hs[j].name);
    EqualsIgnoreCaseSymmetric(hs[i].name, hs[j].name);
  }

  /** A parsed `Content-Type` value. */
  datatype MediaType = MediaType(mediaType: string, charset: Option<string>)

  /** `HttpContentHeaders`: the typed `ContentType` and every other entry. */
  datatype ContentHeaders = ContentHeaders(contentType: Option<MediaType>, others: seq<Header>)

  const NoContentHeaders := ContentHeaders(None, [])

  /** `HttpContent`: the bytes it yields when read, and its headers
      (`None` for a null `Headers` property). */
  datatype Content = Content(data: seq<uint8>, headers: Option<ContentHeaders>)

  datatype Version = Version(major: nat, minor: nat)

  /** A value of the per-request property bag (`IDictionary<string, object>`):
      a boxed `int`, null, or an object of another type. */
  datatype PropertyValue = IntValue(n: Int32) | NullValue | OtherValue(typeName: string)

  /** `HttpRequestMessage`. */
  datatype Request = Request(
    httpMethod: string,
    uri: Uri,
    version: Version,
    headers: seq<Header>,
    content: Option<Content>,
    properties: map<string, PropertyValue>)

  /** `HttpResponseMessage`. `location` is the parsed `Location` header the
      library exposes as `Headers.Location`. */
  datatype Response = Response(
    status: int,
    reasonPhrase: string,
    headers: seq<Header>,
    location: Option<Uri>,
    content: Option<Content>)

  /** The exceptions the modelled code raises or lets through. */
  datatype Error =
    | RedirectLimitExceeded    // InvalidOperationException thrown by SendAsync
    | InvalidRedirectCount     // InvalidCastException / NullReferenceException unboxing the count
    | InvalidMediaType         // ArgumentException from the MediaTypeHeaderValue constructor
    | EmptyHeaderValues        // InvalidOperationException from First() on a header without values
    | DuplicateHeaderName      // ArgumentException from ToDictionary
    | TransportFailure(reason: string) // anything the inner transport throws

  const AuthorizationHeader := "Authorization"

  predicate HasAuthorization(r: Request) {
    HasHeader(r.headers, AuthorizationHeader)
  }

  predicate WellFormedContent(c: Content) {
    c.headers.Some? && WellFormedHeaders(c.headers.value.others)
  }

  /** The shape every request built by the library has: keyed header
      collections and a non-null content header collection. */
  predicate WellFormedRequest(r: Request) {
    && WellFormedHeaders(r.headers)
    && (r.content.Some? ==> WellFormedContent(r.content.value))
  }

  /** Adding to a keyed collection keeps it keyed. */
  lemma AddHeaderKeepsWellFormed(hs: seq<Header>, name: string, values: seq<string>)
    requires WellFormedHeaders(hs)
    ensures WellFormedHeaders(AddHeader(hs, name, values))
  {
    var r := AddHeader(hs, name, values);
    if HasHeader(hs, name) {
      forall i, j | 0 <= i < j < |r|
        ensures !EqualsIgnoreCase(r[i].name, r[j].name)
      {
        assert r[i].name == hs[i].name && r[j].name == hs[j].name;
      }
    }
  }

  /** Whatever is copied, the copy is a keyed collection. */
  lemma {:induction false} AddAllWellFormed(dst: seq<Header>, src: seq<Header>)
    requires WellFormedHeaders(dst)
    ensures WellFormedHeaders(AddAll(dst, src))
    decreases |src|
  {
    if src != [] {
      AddHeaderKeepsWellFormed(dst, src[0].name, src[0].values);
      AddAllWellFormed(AddHeader(dst, src[0].name, src[0].values), src[1..]);
    }
  }

  /** Adding the entries of `src` after `dst`, when no two names in `dst + src`
      clash, just appends them. */
  lemma {:induction false} AddAllAppends(dst: seq<Header>, src: seq<Header>)
    requires WellFormedHeaders(dst + src)
    ensures AddAll(dst, src) == dst + src
    decreases |src|
  {
    if src != [] {
      var all := dst + src;
      assert !HasHeader(dst, src[0].name) by {
        forall i | 0 <= i < |dst|
          ensures !EqualsIgnoreCase(dst[i].name, src[0].name)
        {
          assert all[i] == dst[i] && all[|dst|] == src[0];
        }
      }
      var dst' := AddHeader(dst, src[0].name, src[0].values);
      assert dst' == dst + [src[0]];
      assert dst' + src[1..] == all;
      AddAllAppends(dst', src[1..]);
    }
  }

  /** Copying a keyed collection entry by entry into an empty one reproduces it. */
  lemma CopyHeadersOfWellFormed(src: seq<Header>)
    requires WellFormedHeaders(src)
    ensures CopyHeaders(src) == src
  {
    assert [] + src == src;
    AddAllAppends([], src);
  }

  /** A copy is always keyed, even of a collection that was not. */
  lemma CopyHeadersWellFormed(src: seq<Header>)
    ensures WellFormedHeaders(CopyHeaders(src))
  {
    AddAllWellFormed([], src);
  }

  /** Adding an entry makes its name present and keeps every other name. */
  lemma AddHeaderNames(hs: seq<Header>, name: string, values: seq<string>, n: string)
    ensures HasHeader(AddHeader(hs, name, values), n) <==> HasHeader(hs, n) || EqualsIgnoreCase(name, n)
  {
    var r := AddHeader(hs, name, values);
    if HasHeader(hs, name) {
      if HasHeader(r, n) {
        var i :| 0 <= i < |r| && EqualsIgnoreCase(r[i].name, n);
        assert hs[i].name == r[i].name;
      }
      if HasHeader(hs, n) {
        var i :| 0 <= i < |hs| && EqualsIgnoreCase(hs[i].name, n);
        assert r[i].name == hs[i].name;
      }
      if EqualsIgnoreCase(name, n) {
        var i :| 0 <= i < |hs| && EqualsIgnoreCase(hs[i].name, name);
        EqualsIgnoreCaseTransitive(hs[i].name, name, n);
        assert r[i].name == hs[i].name;
      }
    } else {
      if HasHeader(r, n) {
        var i :| 0 <= i < |r| && EqualsIgnoreCase(r[i].name, n);
        if i < |hs| { assert r[i] == hs[i]; }
      }
      if HasHeader(hs, n) {
        var i :| 0 <= i < |hs| && EqualsIgnoreCase(hs[i].name, n);
        assert r[i] == hs[i];
      }
      if EqualsIgnoreCase(name, n) {
        assert r[|hs|].name == name;
      }
    }
  }

  /** Copying entries adds exactly their names. */
  lemma {:induction false} AddAllNames(dst: seq<Header>, src: seq<Header>, n: string)
    ensures HasHeader(AddAll(dst, src), n) <==> HasHeader(dst, n) || HasHeader(src, n)
    decreases |src|
  {
    if src != [] {
      AddHeaderNames(dst, src[0].name, src[0].values, n);
      AddAllNames(AddHeader(dst, src[0].name, src[0].values), src[1..], n);
      if HasHeader(src, n) {
        var i :| 0 <= i < |src| && EqualsIgnoreCase(src[i].name, n);
        if i > 0 { assert src[1..][i - 1] == src[i]; }
      }
      if HasHeader(src[1..], n) {
        var i :| 0 <= i < |src[1..]| && EqualsIgnoreCase(src[1..][i].name, n);
        assert src[1..][i] == src[i + 1];
      }
    }
  }

  /** A copy carries exactly the names of its source. */
  lemma CopyHeadersNames(src: seq<Header>, n: string)
    ensures HasHeader(CopyHeaders(src), n) <==> HasHeader(src, n)
  {
    AddAllNames([], src, n);
  }
}
