/** `HttpClientAdapter`: sending a request message through an inner transport
    and following redirects — cloning and rewriting the request, counting hops
    in the request's property bag, and dropping credentials across hosts. */
module Adapter {
  import opened Wrappers
  import opened Ascii
  import opened Http
  import Extensions

  /** The property-bag key that carries the hop count. */
  const RedirectCountKey := "RedirectCount"

  /** `HttpMethod.Get`. */
  const Get := "GET"

  /** The hop count above which a further redirect is refused. */
  const MaxRedirectCount := 3

  /** The inner transport: what sending a request yields, or what it throws. */
  type Transport = Http.Request -> Result<Http.Response, Error>

  /** The content part of `CloneHttpRequestMessageAsync`: the bytes are
      buffered into a fresh `StreamContent`, whose own (empty) headers then
      receive a copy of the old content headers, if there are any. */
  function CloneContent(c: Content): (r: Content)
    ensures r.data == c.data
    ensures r.headers.Some?
    ensures c.headers.None? ==> r.headers == Some(NoContentHeaders)
    ensures c.headers.Some? ==> r.headers.value.contentType == c.headers.value.contentType
    ensures WellFormedContent(c) ==> r == c
  {
    if c.headers.None? then
      Content(c.data, Some(NoContentHeaders))
    else
      var source := c.headers.value;
      assert WellFormedContent(c) ==> CopyHeaders(source.others) == source.others by {
        if WellFormedContent(c) {
          CopyHeadersOfWellFormed(source.others);
        }
      }
      Content(c.data, Some(ContentHeaders(source.contentType, CopyHeaders(source.others))))
  }

  /** `CloneHttpRequestMessageAsync`: a new message with the same method, URI,
      version, headers, content and properties. */
  function Clone(source: Http.Request): (r: Http.Request)
    ensures r.httpMethod == source.httpMethod && r.uri == source.uri && r.version == source.version
    ensures r.properties == source.properties
    ensures r.content.None? <==> source.content.None?
    ensures r.content.Some? ==> r.content.value.data == source.content.value.data
    ensures forall n :: HasHeader(r.headers, n) <==> HasHeader(source.headers, n)
    ensures WellFormedRequest(r)
    ensures WellFormedRequest(source) ==> r == source
  {
    var headers := CopyHeaders(source.headers);
    CopyHeadersWellFormed(source.headers);
    assert forall n :: HasHeader(headers, n) <==> HasHeader(source.headers, n) by {
      forall n ensures HasHeader(headers, n) <==> HasHeader(source.headers, n) {
        CopyHeadersNames(source.headers, n);
      }
    }
    assert WellFormedHeaders(source.headers) ==> headers == source.headers by {
      if WellFormedHeaders(source.headers) {
        CopyHeadersOfWellFormed(source.headers);
      }
    }
    var content := if source.content.None? then None else Some(CloneContent(source.content.value));
    assert content.Some? ==> WellFormedContent(content.value) by {
      if content.Some? {
        var c := source.content.value;
        if c.headers.Some? {
          CopyHeadersWellFormed(c.headers.value.others);
        }
      }
    }
    Http.Request(source.httpMethod, source.uri, source.version, headers, content, source.properties)
  }

  /** The statuses `SendAsync` follows: 301, 302 (`Redirect` and `Found`), 303,
      307 and 308. */
  predicate IsRedirectStatus(status: int) {
    status in {301, 302, 303, 307, 308}
  }

  /** The hop count a request carries: 0 without the property, the unboxed
      `int` otherwise; unboxing null or a non-`int` throws. */
  function ReadRedirectCount(r: Http.Request): (c: Result<Int32, Error>)
    ensures RedirectCountKey !in r.properties ==> c == Success(0)
    ensures c.Success? && RedirectCountKey in r.properties ==> r.properties[RedirectCountKey] == IntValue(c.value)
    ensures c.Failure? <==> RedirectCountKey in r.properties && !r.properties[RedirectCountKey].IntValue?
    ensures c.Failure? ==> c.error == InvalidRedirectCount
  {
    if RedirectCountKey !in r.properties then Success(0)
    else match r.properties[RedirectCountKey]
      case IntValue(n) => Success(n)
      case _ => Failure(InvalidRedirectCount)
  }

  /** The rewrite of the clone inside the redirect-status branch of `SendAsync`:
      303 turns it into a body-less GET, the count goes up by one, the URI
      becomes the `Location`, and a change of host (compared with the current
      request's, ignoring case) removes `Authorization`. */
  function FollowRedirect(clone: Http.Request, current: Http.Request, status: int, location: Uri, count: Int32): (r: Http.Request)
    requires count <= MaxRedirectCount
    ensures r.uri == location
    ensures r.version == clone.version
    ensures r.properties == clone.properties[RedirectCountKey := IntValue(count + 1)]
    ensures status == 303 ==> r.httpMethod == Get && r.content.None?
    ensures status != 303 ==> r.httpMethod == clone.httpMethod && r.content == clone.content
    ensures HasAuthorization(r) <==> HasAuthorization(clone) && SameHost(location, current.uri)
    ensures SameHost(location, current.uri) ==> r.headers == clone.headers
    ensures forall h :: h in r.headers <==>
              h in clone.headers && (SameHost(location, current.uri) || !EqualsIgnoreCase(h.name, AuthorizationHeader))
    ensures WellFormedRequest(clone) ==> WellFormedRequest(r)
    ensures WellFormedHeaders(clone.headers) && !SameHost(location, current.uri) ==>
              forall k :: 0 <= k < |clone.headers| && EqualsIgnoreCase(clone.headers[k].name, AuthorizationHeader) ==>
                r.headers == clone.headers[..k] + clone.headers[k + 1..]
  {
    var rewritten := if status == 303 then clone.(content := None, httpMethod := Get) else clone;
    var counted := rewritten.(properties := rewritten.properties[RedirectCountKey := IntValue(count + 1)],
                              uri := location);
    if !SameHost(location, current.uri) then
      counted.(headers := RemoveHeader(counted.headers, AuthorizationHeader))
    else
      counted
  }

  /** What `SendAsync` does with the response (or the exception) the inner
      transport produced for `request`. */
  datatype Decision = Return(outcome: Result<Http.Response, Error>) | Follow(next: Http.Request)

  /** One step of `SendAsync`, from the inner send to `return response`. The hop limit is checked
      as soon as a `Location` is present, before the status is looked at. */
  function Decide(request: Http.Request, response: Result<Http.Response, Error>): (d: Decision)
    ensures response.Failure? ==> d == Return(response)
    ensures response.Success? && response.value.location.None? ==> d == Return(response)
    ensures response.Success? && response.value.location.Some? && ReadRedirectCount(request).Failure? ==>
              d == Return(Failure(InvalidRedirectCount))
    ensures response.Success? && response.value.location.Some? && ReadRedirectCount(request).Success? &&
            ReadRedirectCount(request).value > MaxRedirectCount ==>
              d == Return(Failure(RedirectLimitExceeded))
    ensures response.Success? && response.value.location.Some? && ReadRedirectCount(request).Success? &&
            ReadRedirectCount(request).value <= MaxRedirectCount && !IsRedirectStatus(response.value.status) ==>
              d == Return(response)
    ensures d.Follow? <==>
              && response.Success?
              && response.value.location.Some?
              && ReadRedirectCount(request).Success?
              && ReadRedirectCount(request).value <= MaxRedirectCount
              && IsRedirectStatus(response.value.status)
    ensures d.Follow? ==>
              d.next == FollowRedirect(Clone(request), request, response.value.status, response.value.location.value,
                                       ReadRedirectCount(request).value)
    ensures d.Follow? ==> ReadRedirectCount(d.next) == Success(ReadRedirectCount(request).value + 1)
    ensures d.Return? && response.Success? && d.outcome.Success? ==> d.outcome == response
  {
    match response
    case Failure(_) => Return(response)
    case Success(resp) =>
      if resp.location.None? then Return(response)
      else match ReadRedirectCount(request)
        case Failure(e) => Return(Failure(e))
        case Success(count) =>
          if count > MaxRedirectCount then Return(Failure(RedirectLimitExceeded))
          else if !IsRedirectStatus(resp.status) then Return(response)
          else Follow(FollowRedirect(Clone(request), request, resp.status, resp.location.value, count))
  }

  /** How many more redirects a request may still follow. */
  function RedirectBudget(r: Http.Request): nat {
    match ReadRedirectCount(r)
    case Success(c) => if c <= MaxRedirectCount then MaxRedirectCount + 1 - c else 0
    case Failure(_) => 0
  }

  /** The requests handed to the inner transport, in order, and the result. */
  datatype Exchange = Exchange(sent: seq<Http.Request>, outcome: Result<Http.Response, Error>)

  /** `SendAsync`: the exchange is a chain of follows, starting with the
      request itself, that ends in the first step that returns or throws. */
  function SendAsync(inner: Transport, request: Http.Request): (r: Exchange)
    ensures 1 <= |r.sent| <= RedirectBudget(request) + 1
    ensures r.sent[0] == request
    ensures forall i :: 0 <= i < |r.sent| - 1 ==> Decide(r.sent[i], inner(r.sent[i])) == Follow(r.sent[i + 1])
    ensures Decide(r.sent[|r.sent| - 1], inner(r.sent[|r.sent| - 1])) == Return(r.outcome)
    ensures inner(request).Failure? || inner(request).value.location.None? ==>
              r.sent == [request] && r.outcome == inner(request)
    decreases RedirectBudget(request)
  {
    match Decide(request, inner(request))
    case Return(outcome) => Exchange([request], outcome)
    case Follow(next) =>
      var rest := SendAsync(inner, next);
      Exchange([request] + rest.sent, rest.outcome)
  }

  /** Every request of the chain carries the starting count plus its position. */
  lemma {:induction false} ChainCounts(inner: Transport, request: Http.Request, i: nat)
    requires ReadRedirectCount(request).Success?
    requires i < |SendAsync(inner, request).sent|
    ensures ReadRedirectCount(SendAsync(inner, request).sent[i]).Success?
    ensures ReadRedirectCount(SendAsync(inner, request).sent[i]).value == ReadRedirectCount(request).value + i
    decreases RedirectBudget(request)
  {
    if i > 0 {
      match Decide(request, inner(request))
      case Follow(next) =>
        FollowCounts(request, inner(request), next);
        assert SendAsync(inner, request).sent[i] == SendAsync(inner, next).sent[i - 1];
        ChainCounts(inner, next, i - 1);
    }
  }

  /** Following a redirect adds one to the count. */
  lemma FollowCounts(request: Http.Request, response: Result<Http.Response, Error>, next: Http.Request)
    requires Decide(request, response) == Follow(next)
    ensures ReadRedirectCount(request).Success?
    ensures ReadRedirectCount(next) == Success(ReadRedirectCount(request).value + 1)
  {
  }

  /** A request without a count follows at most four redirects: the requests
      sent carry counts 0 up to at most 4. */
  lemma {:induction false} FreshRequestHopBound(inner: Transport, request: Http.Request)
    requires RedirectCountKey !in request.properties
    ensures |SendAsync(inner, request).sent| <= MaxRedirectCount + 2
    ensures forall i :: 0 <= i < |SendAsync(inner, request).sent| ==>
              ReadRedirectCount(SendAsync(inner, request).sent[i]) == Success(i)
  {
    forall i | 0 <= i < |SendAsync(inner, request).sent|
      ensures ReadRedirectCount(SendAsync(inner, request).sent[i]) == Success(i)
    {
      ChainCounts(inner, request, i);
    }
  }

  /** A transport that redirects every request forever exhausts the limit: a
      fresh request is sent five times, then the call throws. */
  lemma {:induction false} EndlessRedirectsAreCut(inner: Transport, request: Http.Request)
    requires RedirectCountKey !in request.properties
    requires forall q :: inner(q).Success? && inner(q).value.location.Some? && IsRedirectStatus(inner(q).value.status)
    ensures |SendAsync(inner, request).sent| == MaxRedirectCount + 2
    ensures SendAsync(inner, request).outcome == Failure(RedirectLimitExceeded)
  {
    var r := SendAsync(inner, request);
    var last := |r.sent| - 1;
    FreshRequestHopBound(inner, request);
    assert Decide(r.sent[last], inner(r.sent[last])) == Return(r.outcome);
    assert ReadRedirectCount(r.sent[last]) == Success(last);
  }

  /** Credentials never travel to a host other than the one the first request
      went to: a request of the chain still carrying `Authorization` shares its
      host with the first one, which carried it too. */
  lemma {:induction false} CredentialsStayOnOriginHost(inner: Transport, request: Http.Request, j: nat)
    requires j < |SendAsync(inner, request).sent|
    requires HasAuthorization(SendAsync(inner, request).sent[j])
    ensures HasAuthorization(request)
    ensures SameHost(SendAsync(inner, request).sent[j].uri, request.uri)
  {
    var sent := SendAsync(inner, request).sent;
    if j > 0 {
      var prev := sent[j - 1];
      assert Decide(prev, inner(prev)) == Follow(sent[j]);
      assert HasAuthorization(prev) && SameHost(sent[j].uri, prev.uri) by {
        assert forall n :: HasHeader(Clone(prev).headers, n) <==> HasHeader(prev.headers, n);
      }
      CredentialsStayOnOriginHost(inner, request, j - 1);
      EqualsIgnoreCaseTransitive(sent[j].uri.host, prev.uri.host, request.uri.host);
    } else {
      EqualsIgnoreCaseReflexive(request.uri.host);
    }
  }

  /** What one hop of the chain does to the request: it goes to the
      `Location`, a 303 resends as a body-less GET, the other redirect
      statuses resend the same method and body bytes, and `Authorization`
      survives exactly when the host stays the same. */
  lemma HopRewrite(inner: Transport, request: Http.Request, i: nat)
    requires i + 1 < |SendAsync(inner, request).sent|
    ensures var sent := SendAsync(inner, request).sent;
            var response := inner(sent[i]);
            && response.Success?
            && response.value.location == Some(sent[i + 1].uri)
            && IsRedirectStatus(response.value.status)
            && (response.value.status == 303 ==> sent[i + 1].httpMethod == Get && sent[i + 1].content.None?)
            && (response.value.status != 303 ==>
                  && sent[i + 1].httpMethod == sent[i].httpMethod
                  && (sent[i + 1].content.None? <==> sent[i].content.None?)
                  && (sent[i + 1].content.Some? ==> sent[i + 1].content.value.data == sent[i].content.value.data))
            && (HasAuthorization(sent[i + 1]) <==> HasAuthorization(sent[i]) && SameHost(sent[i + 1].uri, sent[i].uri))
  {
    var sent := SendAsync(inner, request).sent;
    assert Decide(sent[i], inner(sent[i])) == Follow(sent[i + 1]);
    assert forall n :: HasHeader(Clone(sent[i]).headers, n) <==> HasHeader(sent[i].headers, n);
  }

  /** Every request after the first is a clone, so its header collections are
      keyed; the first one is keyed when it was given keyed. */
  lemma ChainStaysKeyed(inner: Transport, request: Http.Request, i: nat)
    requires i < |SendAsync(inner, request).sent|
    requires WellFormedRequest(request) || i > 0
    ensures WellFormedRequest(SendAsync(inner, request).sent[i])
  {
    var sent := SendAsync(inner, request).sent;
    if i > 0 {
      assert Decide(sent[i - 1], inner(sent[i - 1])) == Follow(sent[i]);
    }
  }

  /** What one hop of a keyed chain does to the headers: a same-host hop keeps
      them exactly, a cross-host hop removes the `Authorization` entry and
      keeps every other entry, with its values, in order. */
  lemma HopHeaders(inner: Transport, request: Http.Request, i: nat)
    requires i + 1 < |SendAsync(inner, request).sent|
    requires WellFormedRequest(request) || i > 0
    ensures var sent := SendAsync(inner, request).sent;
            SameHost(sent[i + 1].uri, sent[i].uri) ==> sent[i + 1].headers == sent[i].headers
    ensures var sent := SendAsync(inner, request).sent;
            !SameHost(sent[i + 1].uri, sent[i].uri) ==>
              forall k :: 0 <= k < |sent[i].headers| && EqualsIgnoreCase(sent[i].headers[k].name, AuthorizationHeader) ==>
                sent[i + 1].headers == sent[i].headers[..k] + sent[i].headers[k + 1..]
    ensures var sent := SendAsync(inner, request).sent;
            !HasAuthorization(sent[i]) ==> sent[i + 1].headers == sent[i].headers
  {
    var sent := SendAsync(inner, request).sent;
    ChainStaysKeyed(inner, request, i);
    assert Decide(sent[i], inner(sent[i])) == Follow(sent[i + 1]);
    assert Clone(sent[i]) == sent[i];
  }

  /** The outcome of a top-level `Send`: the request messages handed to the
      inner transport and the built response. */
  datatype Delivery = Delivery(sent: seq<Http.Request>, outcome: Result<Extensions.ApiResponse, Error>)

  /** `Send` (cancellation aside): build the message, send it following
      redirects, build the response from the final message. */
  function Send(inner: Transport, resolve: (Uri, string) -> Uri, request: Extensions.ApiRequest): (r: Delivery)
    ensures Extensions.BuildMessage(request, resolve).Failure? ==>
              r.sent == [] && r.outcome == Failure(Extensions.BuildMessage(request, resolve).error)
    ensures Extensions.BuildMessage(request, resolve).Success? ==>
              1 <= |r.sent| <= MaxRedirectCount + 2 && r.sent[0] == Extensions.BuildMessage(request, resolve).value
    ensures r.outcome.Success? ==>
              && |r.sent| > 0
              && var last := inner(r.sent[|r.sent| - 1]);
                 last.Success? && r.outcome.value.status == last.value.status
    ensures Extensions.BuildMessage(request, resolve).Success? ==>
              var exchange := SendAsync(inner, Extensions.BuildMessage(request, resolve).value);
              && r.sent == exchange.sent
              && (exchange.outcome.Failure? ==> r.outcome == Failure(exchange.outcome.error))
              && (exchange.outcome.Success? ==> r.outcome == Extensions.BuildResponse(exchange.outcome.value))
  {
    match Extensions.BuildMessage(request, resolve)
    case Failure(e) => Delivery([], Failure(e))
    case Success(message) =>
      FreshRequestHopBound(inner, message);
      var exchange := SendAsync(inner, message);
      match exchange.outcome
      case Failure(e) => Delivery(exchange.sent, Failure(e))
      case Success(response) => Delivery(exchange.sent, Extensions.BuildResponse(response))
  }
}
