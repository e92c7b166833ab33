/** `HttpClientExtensions`: turning the library's request description into a
    request message (`BuildMessage`) and a response message into the library's
    response (`BuildResponse`). */
module Extensions {
  import opened Wrappers
  import opened Ascii
  import opened Http

  /** The runtime type of `IRequest.Body`, which `BuildMessage` tests with `as`. */
  datatype RequestBody =
    | ContentBody(content: Content)   // an HttpContent
    | TextBody(text: string)          // a string
    | StreamBody(bytes: seq<uint8>)   // a Stream, as the bytes it yields
    | OtherBody(typeName: string)     // an object of any other type
    | NullBody

  /** The parts of `IRequest` that `BuildMessage` reads. `headers` is the
      `IDictionary<string, string>` in enumeration order. */
  datatype ApiRequest = ApiRequest(
    httpMethod: string,
    baseAddress: Uri,
    endpoint: string,
    headers: seq<(string, string)>,
    body: RequestBody,
    contentType: Option<string>)

  /** The version a fresh `HttpRequestMessage` carries. */
  const DefaultVersion := Version(1, 1)

  /** The media type `StringContent` falls back to when given null. */
  const DefaultMediaType := "text/plain"

  /** `Encoding.UTF8.WebName`, the charset `StringContent` records. */
  const Utf8CharSet := "utf-8"

  /** `new MediaTypeHeaderValue(mediaType)`: null and empty are rejected. */
  function NewMediaType(mediaType: Option<string>, charset: Option<string>): (r: Result<MediaType, Error>)
    ensures r.Success? <==> mediaType.Some? && mediaType.value != ""
    ensures r.Success? ==> r.value == MediaType(mediaType.value, charset)
    ensures r.Failure? ==> r.error == InvalidMediaType
  {
    if mediaType.None? || mediaType.value == "" then Failure(InvalidMediaType)
    else Success(MediaType(mediaType.value, charset))
  }

  /** The UTF-8 encoding (RFC 3629) of one Unicode scalar value. */
  function EncodeScalar(c: char): seq<uint8> {
    var n := c as int;
    if n < 0x80 then [n as uint8]
    else if n < 0x800 then [(0xC0 + n / 0x40 % 0x20) as uint8, (0x80 + n % 0x40) as uint8]
    else if n < 0x1_0000 then
      [(0xE0 + n / 0x1000 % 0x10) as uint8, (0x80 + n / 0x40 % 0x40) as uint8, (0x80 + n % 0x40) as uint8]
    else
      [(0xF0 + n / 0x4_0000 % 8) as uint8, (0x80 + n / 0x1000 % 0x40) as uint8,
       (0x80 + n / 0x40 % 0x40) as uint8, (0x80 + n % 0x40) as uint8]
  }

  /** The bytes `StringContent` holds for a string under `Encoding.UTF8`. */
  function Utf8Encode(s: string): seq<uint8> {
    if s == [] then [] else EncodeScalar(s[0]) + Utf8Encode(s[1..])
  }

  /** The content `BuildMessage` attaches for each kind of body (the three
      `request.Body as ...` tests): they select disjoint types, so at most one fires. */
  function BuildContent(body: RequestBody, contentType: Option<string>): Result<Option<Content>, Error> {
    match body
    case ContentBody(c) => Success(Some(c))
    case TextBody(s) =>
      var mt :- NewMediaType(Some(if contentType.None? then DefaultMediaType else contentType.value), Some(Utf8CharSet));
      Success(Some(Content(Utf8Encode(s), Some(ContentHeaders(Some(mt), [])))))
    case StreamBody(bytes) =>
      var mt :- NewMediaType(contentType, None);
      Success(Some(Content(bytes, Some(ContentHeaders(Some(mt), [])))))
    case _ => Success(None)
  }

  /** The dictionary entries as single-valued header entries. */
  function SingleValued(pairs: seq<(string, string)>): (r: seq<Header>)
    ensures |r| == |pairs|
    ensures forall i :: 0 <= i < |pairs| ==> r[i] == Header(pairs[i].0, [pairs[i].1])
  {
    seq(|pairs|, i requires 0 <= i < |pairs| => Header(pairs[i].0, [pairs[i].1]))
  }

  /** Dictionary keys that no case-insensitive header collection would merge. */
  predicate DistinctIgnoringCase(pairs: seq<(string, string)>) {
    forall i, j :: 0 <= i < j < |pairs| ==> !EqualsIgnoreCase(pairs[i].0, pairs[j].0)
  }

  /** `name` carries `value` in the collection, its name compared ignoring case. */
  predicate Present(hs: seq<Header>, name: string, value: string) {
    exists j :: 0 <= j < |hs| && EqualsIgnoreCase(hs[j].name, name) && value in hs[j].values
  }

  /** `IRequest.BuildMessage()`: the absolute URI is `resolve(BaseAddress,
      Endpoint)` (`new Uri(Uri, string)`, which the model takes as given); every
      dictionary header is added; the body picks the content. */
  function BuildMessage(request: ApiRequest, resolve: (Uri, string) -> Uri): (r: Result<Http.Request, Error>)
    ensures r.Failure? <==>
              || (request.body.TextBody? && request.contentType == Some(""))
              || (request.body.StreamBody? && (request.contentType.None? || request.contentType == Some("")))
    ensures r.Failure? ==> r.error == InvalidMediaType
    ensures r.Success? ==> r.value.httpMethod == request.httpMethod
    ensures r.Success? ==> r.value.uri == resolve(request.baseAddress, request.endpoint)
    ensures r.Success? ==> r.value.version == DefaultVersion && r.value.properties == map[]
    ensures r.Success? ==> WellFormedHeaders(r.value.headers)
    ensures r.Success? ==>
              forall i :: 0 <= i < |request.headers| ==> Present(r.value.headers, request.headers[i].0, request.headers[i].1)
    ensures r.Success? && DistinctIgnoringCase(request.headers) ==> r.value.headers == SingleValued(request.headers)
    ensures r.Success? && request.body.ContentBody? ==> r.value.content == Some(request.body.content)
    ensures r.Success? && (request.body.NullBody? || request.body.OtherBody?) ==> r.value.content.None?
    ensures r.Success? && request.body.TextBody? ==>
              var mediaType := if request.contentType.None? then DefaultMediaType else request.contentType.value;
              r.value.content == Some(Content(Utf8Encode(request.body.text),
                                              Some(ContentHeaders(Some(MediaType(mediaType, Some(Utf8CharSet))), []))))
    ensures r.Success? && request.body.StreamBody? ==>
              r.value.content == Some(Content(request.body.bytes,
                                              Some(ContentHeaders(Some(MediaType(request.contentType.value, None)), []))))
  {
    var content :- BuildContent(request.body, request.contentType);
    var headers := SingleValued(request.headers);
    AddAllKeepsPresent([], headers);
    CopyHeadersWellFormed(headers);
    assert DistinctIgnoringCase(request.headers) ==> CopyHeaders(headers) == headers by {
      if DistinctIgnoringCase(request.headers) {
        CopyHeadersOfWellFormed(headers);
      }
    }
    Success(Http.Request(request.httpMethod, resolve(request.baseAddress, request.endpoint), DefaultVersion,
                         CopyHeaders(headers), content, map[]))
  }

  /** Adding keeps every value already present and makes the added ones present. */
  lemma AddHeaderKeepsPresent(hs: seq<Header>, name: string, values: seq<string>)
    ensures forall n, v :: Present(hs, n, v) ==> Present(AddHeader(hs, name, values), n, v)
    ensures forall v :: v in values ==> Present(AddHeader(hs, name, values), name, v)
  {
    var r := AddHeader(hs, name, values);
    forall n, v | Present(hs, n, v)
      ensures Present(r, n, v)
    {
      var j :| 0 <= j < |hs| && EqualsIgnoreCase(hs[j].name, n) && v in hs[j].values;
      assert r[j].name == hs[j].name && v in r[j].values;
    }
    forall v | v in values
      ensures Present(r, name, v)
    {
      if HasHeader(hs, name) {
        var j :| 0 <= j < |hs| && EqualsIgnoreCase(hs[j].name, name) && r[j].values == hs[j].values + values;
        assert v in r[j].values;
      } else {
        assert r[|hs|] == Header(name, values);
      }
    }
  }

  /** Every value of every entry copied over is present in the result. */
  lemma {:induction false} AddAllKeepsPresent(dst: seq<Header>, src: seq<Header>)
    ensures forall n, v :: Present(dst, n, v) ==> Present(AddAll(dst, src), n, v)
    ensures forall i, v :: 0 <= i < |src| && v in src[i].values ==> Present(AddAll(dst, src), src[i].name, v)
    decreases |src|
  {
    if src != [] {
      var dst' := AddHeader(dst, src[0].name, src[0].values);
      AddHeaderKeepsPresent(dst, src[0].name, src[0].values);
      AddAllKeepsPresent(dst', src[1..]);
      forall i, v | 0 <= i < |src| && v in src[i].values
        ensures Present(AddAll(dst, src), src[i].name, v)
      {
        if i > 0 {
          assert src[1..][i - 1] == src[i];
        }
      }
    }
  }

  /** `GetContentMediaType`: null when the content headers or their
      `ContentType` are null, the media type otherwise. */
  function GetContentMediaType(content: Content): (r: Option<string>)
    ensures r.None? <==> content.headers.None? || content.headers.value.contentType.None?
    ensures r.Some? ==> r.value == content.headers.value.contentType.value.mediaType
  {
    if content.headers.Some? && content.headers.value.contentType.Some? then
      Some(content.headers.value.contentType.value.mediaType)
    else
      None
  }

  /** The media type of the content `BuildMessage` builds from a string or a
      stream body is the one the request declared (or `text/plain`). */
  lemma BuiltContentMediaType(request: ApiRequest, resolve: (Uri, string) -> Uri)
    requires BuildMessage(request, resolve).Success?
    requires request.body.TextBody? || request.body.StreamBody?
    ensures BuildMessage(request, resolve).value.content.Some?
    ensures GetContentMediaType(BuildMessage(request, resolve).value.content.value) ==
              if request.contentType.None? then Some(DefaultMediaType) else request.contentType
  {
  }

  /** The archive types `BuildResponse` reads as bytes, compared ignoring case. */
  const BinaryContentTypes: seq<string> := ["application/zip", "application/x-gzip", "application/octet-stream"]

  /** The classifier of `BuildResponse`: any `image/` type (a case-sensitive
      prefix) or one of the archive types (ignoring case). */
  predicate IsBinaryMediaType(contentType: Option<string>) {
    && contentType.Some?
    && (|| StartsWith(contentType.value, "image/")
        || exists i :: 0 <= i < |BinaryContentTypes| && EqualsIgnoreCase(BinaryContentTypes[i], contentType.value))
  }

  /** The body of a built response: read as a byte array, or read as a string
      (kept as the bytes the string is decoded from). */
  datatype ResponseBody = Bytes(data: seq<uint8>) | Text(data: seq<uint8>)

  /** The library's `IResponse`. */
  datatype ApiResponse = ApiResponse(
    status: int,
    body: Option<ResponseBody>,
    headers: map<string, string>,
    contentType: Option<string>)

  /** No two entries share a name, compared ordinally (the dictionary's default
      key comparer). */
  predicate DistinctNames(hs: seq<Header>) {
    forall i, j :: 0 <= i < j < |hs| ==> hs[i].name != hs[j].name
  }

  predicate AllHaveValues(hs: seq<Header>) {
    forall i :: 0 <= i < |hs| ==> hs[i].values != []
  }

  function Names(hs: seq<Header>): set<string> {
    set i | 0 <= i < |hs| :: hs[i].name
  }

  /** `ToDictionary(h => h.Key, h => h.Value.First())` continued from `acc`:
      `First()` throws on an entry without values, `Add` on a repeated key. */
  function FirstValuesFrom(acc: map<string, string>, hs: seq<Header>): (r: Result<map<string, string>, Error>)
    ensures r.Success? <==> AllHaveValues(hs) && DistinctNames(hs) && Names(hs) !! acc.Keys
    ensures r.Success? ==> r.value.Keys == acc.Keys + Names(hs)
    ensures r.Success? ==> forall k :: k in acc ==> r.value[k] == acc[k]
    ensures r.Success? ==> forall i :: 0 <= i < |hs| ==> r.value[hs[i].name] == hs[i].values[0]
    decreases |hs|
  {
    if hs == [] then Success(acc)
    else if hs[0].values == [] then Failure(EmptyHeaderValues)
    else if hs[0].name in acc then Failure(DuplicateHeaderName)
    else
      var rest := FirstValuesFrom(acc[hs[0].name := hs[0].values[0]], hs[1..]);
      HeadersCons(hs);
      rest
  }

  /** How the three header predicates split over the first entry and the rest. */
  lemma HeadersCons(hs: seq<Header>)
    requires hs != []
    ensures Names(hs) == {hs[0].name} + Names(hs[1..])
    ensures AllHaveValues(hs) <==> hs[0].values != [] && AllHaveValues(hs[1..])
    ensures DistinctNames(hs) <==> hs[0].name !in Names(hs[1..]) && DistinctNames(hs[1..])
  {
    forall n | n in Names(hs) ensures n in {hs[0].name} + Names(hs[1..]) {
      var i :| 0 <= i < |hs| && hs[i].name == n;
      if i > 0 { assert hs[1..][i - 1] == hs[i]; }
    }
    if hs[0].values != [] && AllHaveValues(hs[1..]) {
      forall i | 0 <= i < |hs| ensures hs[i].values != [] {
        if i > 0 { assert hs[1..][i - 1] == hs[i]; }
      }
    }
    if hs[0].name !in Names(hs[1..]) && DistinctNames(hs[1..]) {
      forall i, j | 0 <= i < j < |hs| ensures hs[i].name != hs[j].name {
        assert hs[1..][j - 1] == hs[j];
        if i > 0 { assert hs[1..][i - 1] == hs[i]; }
      }
    }
    if DistinctNames(hs) {
      forall n | n in Names(hs[1..]) ensures n != hs[0].name {
        var i :| 0 <= i < |hs[1..]| && hs[1..][i].name == n;
        assert hs[1..][i] == hs[i + 1];
      }
    }
  }

  /** The header dictionary of a built response. */
  function FirstValues(hs: seq<Header>): Result<map<string, string>, Error> {
    FirstValuesFrom(map[], hs)
  }

  /** `HttpResponseMessage.BuildResponse()`. */
  function BuildResponse(response: Http.Response): (r: Result<ApiResponse, Error>)
    ensures r.Success? <==> AllHaveValues(response.headers) && DistinctNames(response.headers)
    ensures r.Success? ==> r.value.status == response.status
    ensures r.Success? ==> r.value.headers.Keys == Names(response.headers)
    ensures r.Success? ==>
              forall i :: 0 <= i < |response.headers| ==>
                r.value.headers[response.headers[i].name] == response.headers[i].values[0]
    ensures r.Success? && response.content.None? ==> r.value.body.None? && r.value.contentType.None?
    ensures r.Success? && response.content.Some? ==>
              && r.value.contentType == GetContentMediaType(response.content.value)
              && r.value.body.Some?
              && r.value.body.value.data == response.content.value.data
              && (r.value.body.value.Bytes? <==> IsBinaryMediaType(r.value.contentType))
  {
    var headers :- FirstValues(response.headers);
    if response.content.None? then
      Success(ApiResponse(response.status, None, headers, None))
    else
      var contentType := GetContentMediaType(response.content.value);
      var data := response.content.value.data;
      Success(ApiResponse(response.status, Some(if IsBinaryMediaType(contentType) then Bytes(data) else Text(data)),
                          headers, contentType))
  }

  /** A keyed header collection never trips the dictionary's duplicate-key
      check. */
  lemma WellFormedHeadersHaveDistinctNames(hs: seq<Header>)
    requires WellFormedHeaders(hs)
    ensures DistinctNames(hs)
  {
    forall i, j | 0 <= i < j < |hs|
      ensures hs[i].name != hs[j].name
    {
      if hs[i].name == hs[j].name {
        EqualsIgnoreCaseReflexive(hs[i].name);
      }
    }
  }

  lemma FoldIs(s: string, upper: string)
    requires |s| == |upper| && forall i :: 0 <= i < |s| ==> ToUpper(s[i]) == upper[i]
    ensures Fold(s) == upper
  {
  }

  /** The archive types upper-cased. */
  const UpperBinaryContentTypes: seq<string> := ["APPLICATION/ZIP", "APPLICATION/X-GZIP", "APPLICATION/OCTET-STREAM"]

  lemma FoldBinaryContentTypes(i: nat)
    requires i < |BinaryContentTypes|
    ensures Fold(BinaryContentTypes[i]) == UpperBinaryContentTypes[i]
  {
    if i == 0 {
      FoldZip();
    } else if i == 1 {
      FoldGzip();
    } else {
      FoldOctetStream();
    }
  }

  lemma FoldZip()
    ensures Fold("application/zip") == "APPLICATION/ZIP"
  {
    FoldIs("application/zip", "APPLICATION/ZIP");
  }

  lemma FoldGzip()
    ensures Fold("application/x-gzip") == "APPLICATION/X-GZIP"
  {
    FoldIs("application/x-gzip", "APPLICATION/X-GZIP");
  }

  lemma FoldOctetStream()
    ensures Fold("application/octet-stream") == "APPLICATION/OCTET-STREAM"
  {
    FoldIs("application/octet-stream", "APPLICATION/OCTET-STREAM");
  }

  /** An independent statement of the classifier: the `image/` prefix as
      written, or the upper-cased type among the upper-cased archive types. */
  lemma IsBinaryMediaTypeReference(contentType: string)
    ensures IsBinaryMediaType(Some(contentType)) <==>
              StartsWith(contentType, "image/") || Fold(contentType) in UpperBinaryContentTypes
  {
    forall i | 0 <= i < |BinaryContentTypes|
      ensures EqualsIgnoreCase(BinaryContentTypes[i], contentType) <==> UpperBinaryContentTypes[i] == Fold(contentType)
    {
      EqualsIgnoreCaseIsFoldEquality(BinaryContentTypes[i], contentType);
      FoldBinaryContentTypes(i);
    }
  }
}
