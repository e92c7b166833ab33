/** The persisted shape of a cassette (`Models.cs`): what one recorded
    request/response pair looks like once serialized. */
module VcrModels {
  import opened Wrappers
  import Http

  /** `Body`: a recorded body as its encoding name and its Base64 text. */
  datatype Body = Body(encoding: string, base64String: string)

  /** `CachedRequest`. */
  datatype CachedRequest = CachedRequest(
    httpMethod: string,
    uri: Http.Uri,
    body: Option<Body>,
    headers: map<string, seq<string>>)

  /** `Status`. */
  datatype Status = Status(code: Http.Int32, message: string)

  /** `CachedResponse`. */
  datatype CachedResponse = CachedResponse(
    status: Status,
    headers: map<string, seq<string>>,
    body: Option<Body>)

  /** `CachedRequestResponse`: one interaction. */
  datatype CachedRequestResponse = CachedRequestResponse(request: CachedRequest, response: CachedResponse)

  /** `CachedRequestResponseArray`: the whole document; its array may be null. */
  datatype CachedRequestResponseArray = CachedRequestResponseArray(httpInteractions: Option<seq<CachedRequestResponse>>)
}
