# Octokit.net transport core in Dafny

A model of the HTTP transport layer of Octokit.net, the .NET client for the
GitHub API, and of the record/replay cassette its integration tests run on.

- **Redirect-following send** (`HttpClientAdapter.SendAsync`,
  `CloneHttpRequestMessageAsync`, `Send`) lives in `adapter.dfy`. It sends a
  request through an inner transport. When the response carries a `Location`,
  the request is cloned and rewritten, then resent:
  - it goes to the new URI;
  - after a 303 it becomes a body-less GET;
  - a hop counter in the request's property bag goes up by one;
  - `Authorization` is dropped when the host changes.

  The inner transport is a function parameter. `SendAsync` returns the list of
  requests it handed to that transport together with the final result.
- **Message marshalling** (`BuildMessage`, `GetContentMediaType`,
  `BuildResponse`) lives in `extensions.dfy`:
  - which content each kind of request body becomes;
  - the binary/text classifier for response bodies;
  - the header dictionary holding the first value of each header.
- **Cassette** (`Cassette`) lives in `cassette.dfy`. The persisted shapes are in
  `vcr_models.dfy`. The cassette is a pure state machine:
  - recorded interactions load lazily from the cassette file;
  - a forward-only cursor serves them by position;
  - the interactions seen are collected and flushed back.

  The file the first access finds is a parameter, and `FlushToDisk` returns the
  new file contents.
- **Shared pieces:**
  - `http.dfy` holds the request and response messages and the
    case-insensitive header collections.
  - `ascii.dfy` holds `OrdinalIgnoreCase` comparison.
  - `wrappers.dfy` holds `Option` (a nullable reference) and `Result` (a call
    that returns or throws).

Three points of the redirect code that the model reproduces as written:

- The hop limit is checked as soon as a `Location` header is present, before the status code is looked at (HttpClientAdapter.cs:100-110). A `Location` on a 200 response to a request carrying count 4 throws.
- The limit test is `count > 3` on the count of the request just sent, and each follow stores that count plus one (HttpClientAdapter.cs:95-100 and 119). A request without a count is therefore sent up to five times (counts 0 to 4), following at most four redirects.
- The host comparison that drops `Authorization` compares the new URI with the request of the current hop, which is the clone passed into the recursive call, not with the first request (HttpClientAdapter.cs:125).

All rewrites act on a clone. The model's values are immutable, so the request given to `SendAsync` is never changed.

## Model

| member | source | states |
|---|---|---|
| Adapter.SendAsync | Octokit/Http/HttpClientAdapter.cs:80-135 | The sent requests form a chain. It starts with the given request and has at most one request more than the remaining redirect budget. Each consecutive pair is linked by a followed redirect, and the last request's response decides the result. A thrown transport error, or a response without `Location`, is returned after a single send. |
| Adapter.Decide | Octokit/Http/HttpClientAdapter.cs:86-134 | One hop: an error or a response without `Location` is returned as it is. With a `Location`, a count that cannot be read throws, and a count above 3 throws before the status is examined. A non-redirect status is returned. Exactly the five redirect statuses with a count of at most 3 are followed, with the rewritten clone, and the follow carries count + 1. |
| Adapter.FollowRedirect | Octokit/Http/HttpClientAdapter.cs:112-128 | The rewritten clone goes to `Location` with count + 1 and keeps its version. A 303 makes it a GET without content; other statuses keep method and content. `Authorization` survives exactly when the new host equals the current one, ignoring case. Every other header is kept. A keyed request stays keyed, and on a cross-host hop the headers are the clone's with just the `Authorization` entry taken out. |
| Adapter.Clone | Octokit/Http/HttpClientAdapter.cs:137-172 | The clone has the same method, URI, version and properties, and the same header names. Its content is null exactly when the source's is, with the same bytes. A request whose header collections are already keyed is reproduced exactly. |
| Adapter.CloneContent | Octokit/Http/HttpClientAdapter.cs:141-157 | The cloned content has the same bytes and media type. It always has a header collection, empty when the source had none, and is identical when the source's headers were keyed. |
| Adapter.ReadRedirectCount | Octokit/Http/HttpClientAdapter.cs:95-99 | The count is 0 without the property and the stored `int` otherwise. Unboxing a null or a non-`int` value fails. |
| Adapter.FollowCounts | Octokit/Http/HttpClientAdapter.cs:118-119 | A followed redirect carries the previous count plus one. |
| Adapter.ChainCounts | Octokit/Http/HttpClientAdapter.cs:95-131 | The i-th request of the chain carries the starting count plus i. |
| Adapter.FreshRequestHopBound | Octokit/Http/HttpClientAdapter.cs:95-103 | A request without a count is sent at most five times, and the i-th send carries count i. |
| Adapter.EndlessRedirectsAreCut | Octokit/Http/HttpClientAdapter.cs:100-103 | A transport that always redirects gets exactly five sends of a fresh request, and then the redirect-limit error. |
| Adapter.CredentialsStayOnOriginHost | Octokit/Http/HttpClientAdapter.cs:124-128 | Any request of the chain that still carries `Authorization` has the first request's host, and the first request carried it too. |
| Adapter.HopRewrite | Octokit/Http/HttpClientAdapter.cs:105-131 | Between two consecutive sends, the response was a redirect whose `Location` is the next URI. A 303 gives a body-less GET; the other statuses keep method and body bytes. `Authorization` survives exactly on a same-host hop. |
| Adapter.ChainStaysKeyed | Octokit/Http/HttpClientAdapter.cs:82-131 | Every request after the first is a clone and has keyed header collections, and the first has them when it was given them. |
| Adapter.HopHeaders | Octokit/Http/HttpClientAdapter.cs:124-128 | In a keyed chain, a same-host hop or a hop from a request without `Authorization` keeps the headers exactly. A cross-host hop removes only the `Authorization` entry and keeps every other entry with its values, in order. |
| Adapter.Send | Octokit/Http/HttpClientAdapter.cs:37-49 | A message that cannot be built sends nothing and fails with the build error. Otherwise one to five requests are sent, exactly those `SendAsync` sends for the built message. An error from `SendAsync` passes through unchanged, and a final response is turned into the result by `BuildResponse`, so a built response carries the status of the last response. |
| Extensions.BuildMessage | Octokit/Helpers/HttpClientExtensions.cs:22-64 | Fails exactly when a string body has an empty content type, or a stream body has a null or empty one. Otherwise it keeps the method, resolves the URI, and uses version 1.1 and no properties. Every dictionary header is present, and the headers are exactly the dictionary's when no two keys clash ignoring case. The content is the `HttpContent` itself, UTF-8 text with the content type (default `text/plain`) and charset `utf-8`, the stream's bytes with the content type, or none. |
| Extensions.NewMediaType | Octokit/Helpers/HttpClientExtensions.cs:51 | A media-type header value is built exactly when the type is neither null nor empty. |
| Extensions.AddAllKeepsPresent | Octokit/Helpers/HttpClientExtensions.cs:31-34 | Adding headers one by one loses no value already present and makes every added value present under its name. |
| Extensions.AddHeaderKeepsPresent | Octokit/Helpers/HttpClientExtensions.cs:33 | One `Headers.Add` keeps every value present and makes the added values present. |
| Extensions.GetContentMediaType | Octokit/Helpers/HttpClientExtensions.cs:66-73 | Null exactly when the content headers or their content type are null, the media type otherwise. |
| Extensions.BuiltContentMediaType | Octokit/Helpers/HttpClientExtensions.cs:41-51 | A message built from a string or stream body reports the declared content type as its media type. For a string body without a declared type, it reports `text/plain`. |
| Extensions.FirstValuesFrom | Octokit/Helpers/HttpClientExtensions.cs:110 | The dictionary is built exactly when every header has a value and no name repeats (ordinal). It then holds exactly the header names, each mapped to its first value. |
| Extensions.BuildResponse | Octokit/Helpers/HttpClientExtensions.cs:75-112 | The status passes through, and the headers map each name to its first value. Without content, body and content type are null. With content, the content type is the content's media type, the body holds the content's bytes, and it is binary exactly when the classifier says so. |
| Extensions.IsBinaryMediaTypeReference | Octokit/Helpers/HttpClientExtensions.cs:84-96 | A content type is binary exactly when it starts with `image/` or its upper-cased form is one of `APPLICATION/ZIP`, `APPLICATION/X-GZIP`, `APPLICATION/OCTET-STREAM`. |
| Extensions.FoldBinaryContentTypes | Octokit/Helpers/HttpClientExtensions.cs:84-87 | Upper-casing the three archive types gives their upper-case spellings. |
| Extensions.WellFormedHeadersHaveDistinctNames | Octokit/Helpers/HttpClientExtensions.cs:110 | A keyed header collection never has two entries with the same name, so building the dictionary cannot fail on a duplicate key. |
| Http.AddHeader | Octokit/Http/HttpClientAdapter.cs:163 | A new name opens an entry at the end. An existing name, compared ignoring case, gets the values appended to its entry; every entry under another name is kept unchanged. |
| Http.RemoveHeader | Octokit/Http/HttpClientAdapter.cs:127 | Exactly the entries under the given name are removed, and a collection without that name is unchanged. A keyed collection stays keyed: its one entry under the name is taken out and the other entries keep their values and order. |
| Http.AddHeaderKeepsWellFormed | Octokit/Http/HttpClientAdapter.cs:163 | Adding to a keyed collection keeps it keyed. |
| Http.AddAllWellFormed | Octokit/Http/HttpClientAdapter.cs:161-164 | Copying headers one by one always yields a keyed collection. |
| Http.AddAllAppends | Octokit/Http/HttpClientAdapter.cs:161-164 | Copying entries whose names do not clash with each other or with the target just appends them. |
| Http.CopyHeadersOfWellFormed | Octokit/Http/HttpClientAdapter.cs:161-164 | Copying a keyed collection reproduces it. |
| Http.CopyHeadersWellFormed | Octokit/Http/HttpClientAdapter.cs:161-164 | Any copy is a keyed collection. |
| Http.AddHeaderNames | Octokit/Http/HttpClientAdapter.cs:163 | After an add, a name is present exactly when it was present before or is the added name. |
| Http.AddAllNames | Octokit/Http/HttpClientAdapter.cs:161-164 | After copying, a name is present exactly when it was present in the target or in the source. |
| Http.CopyHeadersNames | Octokit/Http/HttpClientAdapter.cs:161-164 | A copy carries exactly the names of its source. |
| Ascii.EqualsIgnoreCaseIsFoldEquality | Octokit/Http/HttpClientAdapter.cs:125 | Two strings are equal ignoring case exactly when their upper-cased forms are equal. |
| VcrCassette.NewCassette | Octokit.Tests.Integration/vcr/Cassette.cs:17-20 | A new cassette remembers its path, has its cursor at 0 and has loaded nothing. |
| VcrCassette.SetupCache | Octokit.Tests.Integration/vcr/Cassette.cs:22-36 | Loading fails only on an unreadable file. A missing file or a null array gives no recorded entries, and a document gives its array. The stored entries start empty; path and cursor are kept. |
| VcrCassette.EnsureLoaded | Octokit.Tests.Integration/vcr/Cassette.cs:49-52 | A loaded cassette is left as it is, so loading happens at most once. An unloaded cassette is loaded with empty stored entries. |
| VcrCassette.LookUp | Octokit.Tests.Integration/vcr/Cassette.cs:54-68 | With the cursor past the recording: a miss, and nothing changes. Otherwise the cursor advances by one. The result is a hit exactly when the entry under the cursor matches, and a hit returns that entry's response and appends the entry to the stored ones. A miss stores nothing. The cassette only evolves forward. |
| VcrCassette.FindCachedResponse | Octokit.Tests.Integration/vcr/Cassette.cs:47-69 | A lookup fails only when loading is needed and the file is unreadable, and a failed lookup leaves the cassette untouched. Otherwise the cassette ends up loaded, its cursor has advanced by at most one, and the recorded entries are unchanged. |
| VcrCassette.StoreCachedResponse | Octokit.Tests.Integration/vcr/Cassette.cs:71-85 | Storing appends exactly the new interaction to the stored entries, which are empty if this call loaded the cassette. The cursor does not move. |
| VcrCassette.FlushToDisk | Octokit.Tests.Integration/vcr/Cassette.cs:87-103 | The written document holds exactly the stored entries, in order. Flushing an unloaded cassette fails. |
| VcrCassette.ReplayIsPositional | Octokit.Tests.Integration/vcr/Cassette.cs:54-68 | On a loaded cassette, the k-th request of a session is answered from recorded position cursor + k and from nothing else. The cursor stops at the end of the recording, and exactly the matched entries are stored, in order. |
| VcrCassette.ReplayCursor | Octokit.Tests.Integration/vcr/Cassette.cs:54-60 | A session on a loaded cassette never fails. Its cursor advances once per request up to the end of the recording, and the recording is never changed. |
| VcrCassette.ReplayResults | Octokit.Tests.Integration/vcr/Cassette.cs:59-68 | Each request's answer is the positional match against the recorded entry at its position. |
| VcrCassette.ReplayStores | Octokit.Tests.Integration/vcr/Cassette.cs:61-64 | The stored entries grow by exactly the entries that were hit, in order. |
| VcrCassette.ReplayLoadsFirst | Octokit.Tests.Integration/vcr/Cassette.cs:49-52 | A session on an unloaded cassette runs as if it had started from the loaded one. |
| VcrCassette.HitsPastEnd | Octokit.Tests.Integration/vcr/Cassette.cs:54-57 | Past the end of the recording no request hits. |
| VcrCassette.HitsOfMatchingRequests | Octokit.Tests.Integration/vcr/Cassette.cs:61-64 | Requests that match the rest of the recording position by position hit all of it. |
| VcrCassette.MatchingIgnoresHeadersAndBody | Octokit.Tests.Integration/vcr/Cassette.cs:38-45 | Two requests with the same method (ignoring case) and URI match the same entries, whatever their headers, body, version or properties. |
| VcrCassette.FlushThenLoad | Octokit.Tests.Integration/vcr/Cassette.cs:87-101 | A fresh cassette loading the flushed file records exactly the old stored entries, starting with no stored entries and the cursor at 0. |
| VcrCassette.RecordedSessionReplays | Octokit.Tests.Integration/vcr/Cassette.cs:22-101 | On a fresh cassette over the flushed file, a session whose requests match the stored entries in order hits every entry with its recorded response. It stores the same entries again, so flushing writes the same file. |
| VcrCassette.MissThenStoreThenFlush | Octokit.Tests.Integration/vcr/Cassette.cs:47-101 | With no cassette file, a lookup misses, the live interaction is stored, and the flush writes exactly that one interaction. |

## Left out

- Cancellation and timeouts (`GetCancellationTokenForRequest`, HttpClientAdapter.cs:52-64) are left out. They are timing and concurrency; the model sends without a cancellation token.
- `async`/`Task`, disposal, `MemoryStream` buffering, `HttpClient` and the empty `RedirectHandler` are runtime plumbing. A stream's content is modelled as the bytes it yields.
- URI resolution `new Uri(BaseAddress, Endpoint)` (section 5.2 of RFC 3986) is done by the runtime library. `BuildMessage` takes it as a `resolve` function parameter.
- `System.Uri` is modelled as a host and an opaque remainder. URI equality in `MatchesRequest` is equality of those values.
- `EqualsIgnoreCase`: `OrdinalIgnoreCase` is modelled by upper-casing ASCII letters only. Non-ASCII case pairs are not equated.
- `IsBinaryMediaType`: `StartsWith("image/")` is culture-sensitive in .NET and is modelled as an ordinal prefix test.
- `NewMediaType`: the `MediaTypeHeaderValue` constructor's format check is modelled only for null and empty input. Any other malformed type is accepted.
- `BuildMessage`: `Headers.Add` validation of header names and values is not modelled, and neither are the exceptions it throws. Each dictionary value is added as one value, without parsing comma-separated lists.
- `BuildMessage`: a string body is a sequence of Unicode scalar values. A .NET string is UTF-16 and may hold an unpaired surrogate, which `Encoding.UTF8` writes as U+FFFD (bytes EF BF BD); such bodies are not modelled.
- `BuildResponse`: `ReadAsStringAsync` decodes with the content's charset. The model keeps the bytes in a `Text` body instead of the decoded string. The `InvalidOperationException` that `ReadAsStringAsync` (HttpClientExtensions.cs:102) throws for a charset naming no known encoding is not modelled either, so such a response still builds.
- `FirstValuesFrom`: `First()` on an empty value list and a duplicate key are modelled as the errors `EmptyHeaderValues` and `DuplicateHeaderName`. A keyed collection never repeats a name (`WellFormedHeadersHaveDistinctNames`). An entry without values is allowed by the model, and it makes the dictionary fail to build, as `First()` throws.
- JSON serialization (Newtonsoft) and the `Serializer` class are not part of this model. `StoreCachedResponse` receives the already serialized request and response, and a hit returns the recorded response snapshot. An unreadable or `null` document is the `Unreadable` file state.
- `CassetteFile`: the file is modelled as the document it deserializes to, not as JSON text. Writing a flushed document and reading it back is therefore assumed to be lossless; the Newtonsoft round trip between `JsonConvert.SerializeObject` in `FlushToDisk` and `DeserializeObject` in `SetupCache` is not shown. `FlushThenLoad` and `RecordedSessionReplays` rest on that assumption.
- `Response`: the parsed `location` and the `Location` entry in `headers` are independent fields. In .NET, `Headers.Location` is a typed view of that entry. No property depends on their agreement, because every lemma quantifies over all transports.
- `Uri`: every `Location` is assumed to be an absolute URI with a host. A relative `Location` becomes a relative `Uri`, and reading its `Host` at HttpClientAdapter.cs:125 throws `InvalidOperationException`. The model follows such a redirect instead of failing.
- `FlushToDisk`'s directory creation and file write are left out. The function returns the new file contents instead.
- `VCRMode`, the replaying message handler, `VCRFixture`, `HttpClientWrapper` and the integration tests are test wiring and are left out.
- Null fields inside recorded entries (a null request, method or URI) are not modelled. Every recorded entry is a complete value.
- `Int32` wrap-around of the hop counter cannot happen: a count above 3 is never incremented.
