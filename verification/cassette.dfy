/** `Cassette`: the record/replay store of one test session. Recorded
    interactions are loaded lazily from the cassette file, served strictly in
    recorded order through a forward-only cursor, and every interaction seen
    in the session is collected for writing back. */
module VcrCassette {
  import opened Wrappers
  import opened Ascii
  import Http
  import opened VcrModels

  /** The cassette file as the first access finds it: absent, unreadable (the
      JSON reader throws, or the document is `null`), or a document. */
  datatype CassetteFile = Absent | Unreadable | Present(document: CachedRequestResponseArray)

  /** The fields of a `Cassette`; `None` stands for a list not yet created. */
  datatype Cassette = Cassette(
    cassettePath: string,
    currentIndex: int,
    cachedEntries: Option<seq<CachedRequestResponse>>,
    storedEntries: Option<seq<CachedRequestResponse>>)

  /** `CacheResult`: the recorded response, or a miss. */
  datatype CacheResult = Hit(response: CachedResponse) | Missing

  datatype Error =
    | CorruptCassette  // the cassette file could not be read as a document
    | NotLoaded        // NullReferenceException: flushing before any lookup or store

  /** A cassette after an operation, and what the operation returned or threw. */
  datatype Step<T> = Step(cassette: Cassette, outcome: Result<T, Error>)

  predicate Loaded(c: Cassette) {
    c.cachedEntries.Some?
  }

  /** The states a cassette can be in: both lists exist or neither does, and
      the cursor lies within the recorded entries. */
  predicate Valid(c: Cassette) {
    && (c.cachedEntries.Some? <==> c.storedEntries.Some?)
    && (c.cachedEntries.None? ==> c.currentIndex == 0)
    && (c.cachedEntries.Some? ==> 0 <= c.currentIndex <= |c.cachedEntries.value|)
  }

  /** How a cassette may change: the cursor only moves forward, the recorded
      entries are never touched once loaded, and the stored ones only grow. */
  predicate Evolves(c: Cassette, c': Cassette) {
    && Valid(c')
    && c'.cassettePath == c.cassettePath
    && c.currentIndex <= c'.currentIndex
    && (Loaded(c) ==> && Loaded(c')
                      && c'.cachedEntries == c.cachedEntries
                      && c.storedEntries.Some? && c'.storedEntries.Some?
                      && c.storedEntries.value <= c'.storedEntries.value)
  }

  /** The constructor: it only remembers the path. */
  function NewCassette(cassettePath: string): (c: Cassette)
    ensures Valid(c) && !Loaded(c)
    ensures c.cassettePath == cassettePath && c.currentIndex == 0
  {
    Cassette(cassettePath, 0, None, None)
  }

  /** `SetupCache`: the recorded entries come from the file (none when it is
      absent or its array is null) and the stored entries start empty. */
  function SetupCache(c: Cassette, file: CassetteFile): (r: Result<Cassette, Error>)
    ensures r.Failure? <==> file.Unreadable?
    ensures r.Failure? ==> r.error == CorruptCassette
    ensures r.Success? ==> && r.value.cassettePath == c.cassettePath
                           && r.value.currentIndex == c.currentIndex
                           && r.value.storedEntries == Some([])
    ensures file.Absent? ==> r == Success(r.value) && r.value.cachedEntries == Some([])
    ensures file.Present? && file.document.httpInteractions.None? ==> r.Success? && r.value.cachedEntries == Some([])
    ensures file.Present? && file.document.httpInteractions.Some? ==>
              r.Success? && r.value.cachedEntries == file.document.httpInteractions
  {
    match file
    case Absent => Success(c.(cachedEntries := Some([]), storedEntries := Some([])))
    case Unreadable => Failure(CorruptCassette)
    case Present(document) =>
      var entries := if document.httpInteractions.None? then [] else document.httpInteractions.value;
      Success(c.(cachedEntries := Some(entries), storedEntries := Some([])))
  }

  /** The `if (cachedEntries == null) await SetupCache()` guard at the start of
      a lookup or a store: a loaded cassette is left as it is. */
  function EnsureLoaded(c: Cassette, file: CassetteFile): (r: Result<Cassette, Error>)
    requires Valid(c)
    ensures Loaded(c) ==> r == Success(c)
    ensures r.Failure? <==> !Loaded(c) && file.Unreadable?
    ensures r.Success? ==> Evolves(c, r.value) && Loaded(r.value) && r.value.currentIndex == c.currentIndex
    ensures r.Success? && !Loaded(c) ==> r.value.storedEntries == Some([])
  {
    if Loaded(c) then Success(c) else SetupCache(c, file)
  }

  /** `MatchesRequest`: the method compared ignoring case, the URI exactly;
      headers and body play no part. */
  predicate MatchesRequest(cached: CachedRequestResponse, request: Http.Request) {
    && EqualsIgnoreCase(cached.request.httpMethod, request.httpMethod)
    && cached.request.uri == request.uri
  }

  /** The lookup proper of `FindCachedResponseAsync`, after the load guard: out of
      range is a miss that changes nothing; otherwise the entry under the
      cursor is consumed, and copied to the stored entries when it matches. */
  function LookUp(c: Cassette, request: Http.Request): (r: (Cassette, CacheResult))
    requires Valid(c) && Loaded(c)
    ensures Evolves(c, r.0)
    ensures c.currentIndex >= |c.cachedEntries.value| ==> r == (c, Missing)
    ensures c.currentIndex < |c.cachedEntries.value| ==> r.0.currentIndex == c.currentIndex + 1
    ensures r.1.Hit? <==> c.currentIndex < |c.cachedEntries.value| &&
                          MatchesRequest(c.cachedEntries.value[c.currentIndex], request)
    ensures r.1.Hit? ==> && r.1.response == c.cachedEntries.value[c.currentIndex].response
                         && r.0.storedEntries.value == c.storedEntries.value + [c.cachedEntries.value[c.currentIndex]]
    ensures r.1.Missing? ==> r.0.storedEntries == c.storedEntries
  {
    var entries := c.cachedEntries.value;
    if c.currentIndex < 0 || c.currentIndex >= |entries| then
      (c, Missing)
    else
      var entry := entries[c.currentIndex];
      var advanced := c.(currentIndex := c.currentIndex + 1);
      if MatchesRequest(entry, request) then
        (advanced.(storedEntries := Some(c.storedEntries.value + [entry])), Hit(entry.response))
      else
        (advanced, Missing)
  }

  /** `FindCachedResponseAsync`. A failed load leaves the cassette unloaded. */
  function FindCachedResponse(c: Cassette, file: CassetteFile, request: Http.Request): (r: Step<CacheResult>)
    requires Valid(c)
    ensures r.outcome.Failure? <==> !Loaded(c) && file.Unreadable?
    ensures r.outcome.Failure? ==> r.cassette == c && r.outcome.error == CorruptCassette
    ensures r.outcome.Success? ==> Evolves(c, r.cassette) && Loaded(r.cassette)
    ensures r.outcome.Success? ==> r.cassette.currentIndex <= c.currentIndex + 1
  {
    match EnsureLoaded(c, file)
    case Failure(e) => Step(c, Failure(e))
    case Success(loaded) =>
      var (next, result) := LookUp(loaded, request);
      Step(next, Success(result))
  }

  /** `StoreCachedResponseAsync`: the interaction, serialized by the caller,
      goes to the end of the stored entries; nothing else changes. */
  function StoreCachedResponse(c: Cassette, file: CassetteFile, request: CachedRequest, response: CachedResponse)
    : (r: Step<()>)
    requires Valid(c)
    ensures r.outcome.Failure? <==> !Loaded(c) && file.Unreadable?
    ensures r.outcome.Failure? ==> r.cassette == c && r.outcome.error == CorruptCassette
    ensures r.outcome.Success? ==> && Evolves(c, r.cassette)
                                   && Loaded(r.cassette)
                                   && r.cassette.currentIndex == c.currentIndex
    ensures r.outcome.Success? ==>
              r.cassette.storedEntries.value ==
                (if Loaded(c) then c.storedEntries.value else []) + [CachedRequestResponse(request, response)]
  {
    match EnsureLoaded(c, file)
    case Failure(e) => Step(c, Failure(e))
    case Success(loaded) =>
      var stored := loaded.storedEntries.value + [CachedRequestResponse(request, response)];
      Step(loaded.(storedEntries := Some(stored)), Success(()))
  }

  /** `FlushToDisk`: the new contents of the cassette file, holding the stored
      entries in full and in order. The cassette itself is not changed. */
  function FlushToDisk(c: Cassette): (r: Result<CassetteFile, Error>)
    ensures r.Failure? <==> c.storedEntries.None?
    ensures r.Failure? ==> r.error == NotLoaded
    ensures r.Success? ==> r.value == Present(CachedRequestResponseArray(c.storedEntries))
  {
    if c.storedEntries.None? then Failure(NotLoaded)
    else Success(Present(CachedRequestResponseArray(c.storedEntries)))
  }

  /** Evolution composes. */
  lemma EvolvesTransitive(a: Cassette, b: Cassette, c: Cassette)
    requires Evolves(a, b) && Evolves(b, c)
    ensures Evolves(a, c)
  {
  }

  /** A test session issuing `requests` one lookup after another. */
  function Replay(c: Cassette, file: CassetteFile, requests: seq<Http.Request>): (r: Step<seq<CacheResult>>)
    requires Valid(c)
    ensures Valid(r.cassette)
    ensures r.outcome.Success? ==> |r.outcome.value| == |requests|
    ensures r.outcome.Success? && requests != [] ==> Evolves(c, r.cassette)
    decreases |requests|
  {
    if requests == [] then Step(c, Success([]))
    else
      var first := FindCachedResponse(c, file, requests[0]);
      match first.outcome
      case Failure(e) => Step(first.cassette, Failure(e))
      case Success(result) =>
        var rest := Replay(first.cassette, file, requests[1..]);
        match rest.outcome
        case Failure(e) => rest
        case Success(results) =>
          assert requests[1..] != [] ==> Evolves(c, rest.cassette) by {
            if requests[1..] != [] {
              EvolvesTransitive(c, first.cassette, rest.cassette);
            }
          }
          Step(rest.cassette, Success([result] + results))
  }

  /** The answer positional matching gives to the request issued at cursor
      position `index`. */
  function Expected(entries: seq<CachedRequestResponse>, index: nat, request: Http.Request): CacheResult {
    if index < |entries| && MatchesRequest(entries[index], request) then Hit(entries[index].response) else Missing
  }

  /** The recorded entries, from position `index` on, that the requests match
      position by position. */
  function Hits(entries: seq<CachedRequestResponse>, index: nat, requests: seq<Http.Request>): seq<CachedRequestResponse>
    decreases |requests|
  {
    if requests == [] then []
    else
      (if index < |entries| && MatchesRequest(entries[index], requests[0]) then [entries[index]] else [])
      + Hits(entries, index + 1, requests[1..])
  }

  function Min(a: int, b: int): int {
    if a <= b then a else b
  }

  /** Replay is positional: the k-th request is compared with the k-th
      remaining recorded entry and nothing else, the cursor stops at the end of
      the recording, and exactly the matched entries are stored, in order. */
  lemma ReplayIsPositional(c: Cassette, file: CassetteFile, requests: seq<Http.Request>)
    requires Valid(c) && Loaded(c)
    ensures Replay(c, file, requests).outcome.Success?
    ensures forall k :: 0 <= k < |requests| ==>
              Replay(c, file, requests).outcome.value[k] == Expected(c.cachedEntries.value, c.currentIndex + k, requests[k])
    ensures Replay(c, file, requests).cassette.currentIndex == Min(c.currentIndex + |requests|, |c.cachedEntries.value|)
    ensures Replay(c, file, requests).cassette.cachedEntries == c.cachedEntries
    ensures Replay(c, file, requests).cassette.storedEntries ==
              Some(c.storedEntries.value + Hits(c.cachedEntries.value, c.currentIndex, requests))
  {
    ReplayCursor(c, file, requests);
    ReplayResults(c, file, requests);
    ReplayStores(c, file, requests);
  }

  /** A session on a loaded cassette never fails; its cursor advances once
      per request until the end of the recording. */
  lemma {:induction false} ReplayCursor(c: Cassette, file: CassetteFile, requests: seq<Http.Request>)
    requires Valid(c) && Loaded(c)
    ensures Replay(c, file, requests).outcome.Success?
    ensures Replay(c, file, requests).cassette.currentIndex == Min(c.currentIndex + |requests|, |c.cachedEntries.value|)
    ensures Replay(c, file, requests).cassette.cachedEntries == c.cachedEntries
    decreases |requests|
  {
    if requests != [] {
      var (next, result) := LookUp(c, requests[0]);
      ReplayUnfold(c, file, requests);
      ReplayCursor(next, file, requests[1..]);
    }
  }

  /** The k-th request of a session is answered from recorded position
      `currentIndex + k`. */
  lemma {:induction false} ReplayResults(c: Cassette, file: CassetteFile, requests: seq<Http.Request>)
    requires Valid(c) && Loaded(c)
    ensures Replay(c, file, requests).outcome.Success?
    ensures forall k :: 0 <= k < |requests| ==>
              Replay(c, file, requests).outcome.value[k] == Expected(c.cachedEntries.value, c.currentIndex + k, requests[k])
    decreases |requests|
  {
    ReplayCursor(c, file, requests);
    if requests != [] {
      var entries := c.cachedEntries.value;
      var (next, result) := LookUp(c, requests[0]);
      ReplayUnfold(c, file, requests);
      ReplayCursor(next, file, requests[1..]);
      ReplayResults(next, file, requests[1..]);
      var r := Replay(c, file, requests).outcome.value;
      var rest := Replay(next, file, requests[1..]).outcome.value;
      assert r == [result] + rest;
      forall k | 0 <= k < |requests|
        ensures r[k] == Expected(entries, c.currentIndex + k, requests[k])
      {
        if k > 0 {
          assert r[k] == rest[k - 1];
          assert requests[1..][k - 1] == requests[k];
        }
      }
    }
  }

  /** A session stores exactly the recorded entries its requests hit, in order. */
  lemma {:induction false} ReplayStores(c: Cassette, file: CassetteFile, requests: seq<Http.Request>)
    requires Valid(c) && Loaded(c)
    ensures Replay(c, file, requests).cassette.storedEntries ==
              Some(c.storedEntries.value + Hits(c.cachedEntries.value, c.currentIndex, requests))
    decreases |requests|
  {
    if requests != [] {
      var (next, result) := LookUp(c, requests[0]);
      ReplayUnfold(c, file, requests);
      ReplayCursor(next, file, requests[1..]);
      ReplayStores(next, file, requests[1..]);
      LookUpStoresHits(c, requests);
    } else {
      assert c.storedEntries.value + [] == c.storedEntries.value;
    }
  }

  /** The entries still to be stored after one lookup are the hits of the
      remaining requests. */
  lemma LookUpStoresHits(c: Cassette, requests: seq<Http.Request>)
    requires Valid(c) && Loaded(c) && requests != []
    ensures var next := LookUp(c, requests[0]).0;
            var entries := c.cachedEntries.value;
            c.storedEntries.value + Hits(entries, c.currentIndex, requests) ==
              next.storedEntries.value + Hits(entries, next.currentIndex, requests[1..])
  {
    var entries := c.cachedEntries.value;
    var stored := c.storedEntries.value;
    var next := LookUp(c, requests[0]).0;
    if c.currentIndex >= |entries| {
      assert next == c;
      HitsPastEnd(entries, c.currentIndex, requests);
      HitsPastEnd(entries, c.currentIndex, requests[1..]);
      assert stored + [] == stored;
    } else if MatchesRequest(entries[c.currentIndex], requests[0]) {
      assert next.storedEntries.value == stored + [entries[c.currentIndex]];
      assert next.currentIndex == c.currentIndex + 1;
      HitsOfMatch(entries, c.currentIndex, requests, stored);
    } else {
      assert next.storedEntries.value == stored;
      assert next.currentIndex == c.currentIndex + 1;
      HitsOfMiss(entries, c.currentIndex, requests);
    }
  }

  /** A request that does not match the entry under the cursor adds nothing. */
  lemma HitsOfMiss(entries: seq<CachedRequestResponse>, index: nat, requests: seq<Http.Request>)
    requires requests != [] && index < |entries| && !MatchesRequest(entries[index], requests[0])
    ensures Hits(entries, index, requests) == Hits(entries, index + 1, requests[1..])
  {
    assert Hits(entries, index, requests) == [] + Hits(entries, index + 1, requests[1..]);
  }

  /** A request matching the entry under the cursor moves that entry from the
      hits still to come to the stored entries. */
  lemma HitsOfMatch(entries: seq<CachedRequestResponse>, index: nat, requests: seq<Http.Request>,
                    stored: seq<CachedRequestResponse>)
    requires requests != [] && index < |entries| && MatchesRequest(entries[index], requests[0])
    ensures stored + Hits(entries, index, requests) == (stored + [entries[index]]) + Hits(entries, index + 1, requests[1..])
  {
    var later := Hits(entries, index + 1, requests[1..]);
    assert Hits(entries, index, requests) == [entries[index]] + later;
    assert stored + ([entries[index]] + later) == (stored + [entries[index]]) + later;
  }

  /** One step of a session on a loaded cassette is one `LookUp`. */
  lemma ReplayUnfold(c: Cassette, file: CassetteFile, requests: seq<Http.Request>)
    requires Valid(c) && Loaded(c) && requests != []
    ensures var step := LookUp(c, requests[0]);
            var rest := Replay(step.0, file, requests[1..]);
            Replay(c, file, requests) ==
              if rest.outcome.Success? then Step(rest.cassette, Success([step.1] + rest.outcome.value)) else rest
  {
    var (next, result) := LookUp(c, requests[0]);
    assert FindCachedResponse(c, file, requests[0]) == Step(next, Success(result));
  }

  /** Past the end of the recording nothing matches. */
  lemma {:induction false} HitsPastEnd(entries: seq<CachedRequestResponse>, index: nat, requests: seq<Http.Request>)
    requires index >= |entries|
    ensures Hits(entries, index, requests) == []
    decreases |requests|
  {
    if requests != [] {
      HitsPastEnd(entries, index + 1, requests[1..]);
    }
  }

  /** Requests that match the whole recording, in order, hit every entry. */
  lemma {:induction false} HitsOfMatchingRequests(entries: seq<CachedRequestResponse>, index: nat, requests: seq<Http.Request>)
    requires index + |requests| == |entries|
    requires forall k :: 0 <= k < |requests| ==> MatchesRequest(entries[index + k], requests[k])
    ensures Hits(entries, index, requests) == entries[index..]
    decreases |requests|
  {
    if requests != [] {
      assert MatchesRequest(entries[index + 0], requests[0]);
      forall k | 0 <= k < |requests[1..]|
        ensures MatchesRequest(entries[index + 1 + k], requests[1..][k])
      {
        assert MatchesRequest(entries[index + (k + 1)], requests[k + 1]);
      }
      HitsOfMatchingRequests(entries, index + 1, requests[1..]);
      assert entries[index..] == [entries[index]] + entries[index + 1..];
    }
  }

  /** Matching looks only at method (ignoring case) and URI: a request that
      differs in version, headers, body or properties matches the same
      entries. */
  lemma MatchingIgnoresHeadersAndBody(cached: CachedRequestResponse, request: Http.Request, other: Http.Request)
    requires EqualsIgnoreCase(other.httpMethod, request.httpMethod) && other.uri == request.uri
    ensures MatchesRequest(cached, request) <==> MatchesRequest(cached, other)
  {
    EqualsIgnoreCaseSymmetric(other.httpMethod, request.httpMethod);
    if MatchesRequest(cached, request) {
      EqualsIgnoreCaseTransitive(cached.request.httpMethod, request.httpMethod, other.httpMethod);
    }
    if MatchesRequest(cached, other) {
      EqualsIgnoreCaseTransitive(cached.request.httpMethod, other.httpMethod, request.httpMethod);
    }
  }

  /** Flushing and loading round-trip: a new session over the flushed file
      starts with the old session's stored entries as its recording. */
  lemma FlushThenLoad(c: Cassette)
    requires Valid(c) && Loaded(c)
    ensures FlushToDisk(c).Success?
    ensures var loaded := EnsureLoaded(NewCassette(c.cassettePath), FlushToDisk(c).value);
            && loaded.Success?
            && loaded.value.cachedEntries == c.storedEntries
            && loaded.value.storedEntries == Some([])
            && loaded.value.currentIndex == 0
  {
  }

  /** A recorded session replays: a new session over the flushed file, issuing
      requests that match the stored entries in order, hits every one of them
      with its recorded response and ends up storing the same entries again,
      so flushing it writes the same file. */
  lemma RecordedSessionReplays(c: Cassette, requests: seq<Http.Request>)
    requires Valid(c) && Loaded(c)
    requires |requests| == |c.storedEntries.value| > 0
    requires forall k :: 0 <= k < |requests| ==> MatchesRequest(c.storedEntries.value[k], requests[k])
    ensures FlushToDisk(c).Success?
    ensures var file := FlushToDisk(c).value;
            var r := Replay(NewCassette(c.cassettePath), file, requests);
            && r.outcome.Success?
            && (forall k :: 0 <= k < |requests| ==> r.outcome.value[k] == Hit(c.storedEntries.value[k].response))
            && r.cassette.storedEntries == c.storedEntries
            && FlushToDisk(r.cassette) == Success(file)
  {
    var stored := c.storedEntries.value;
    var file := FlushToDisk(c).value;
    var start := NewCassette(c.cassettePath);
    FlushThenLoad(c);
    var loaded := EnsureLoaded(start, file).value;
    ReplayLoadsFirst(start, file, requests);
    ReplayIsPositional(loaded, file, requests);
    HitsOfMatchingRequests(stored, 0, requests);
    assert [] + stored == stored;
  }

  /** The first lookup of a session loads the cassette; from then on the
      session runs as if it had started loaded. */
  lemma ReplayLoadsFirst(c: Cassette, file: CassetteFile, requests: seq<Http.Request>)
    requires Valid(c) && requests != []
    requires EnsureLoaded(c, file).Success?
    ensures Replay(c, file, requests) == Replay(EnsureLoaded(c, file).value, file, requests)
  {
    var loaded := EnsureLoaded(c, file).value;
    assert FindCachedResponse(c, file, requests[0]) == FindCachedResponse(loaded, file, requests[0]);
  }

  /** A session on a cassette with no file: the lookup misses, the live
      interaction is stored, and the flush writes exactly that one interaction. */
  lemma MissThenStoreThenFlush(path: string, live: Http.Request, request: CachedRequest, response: CachedResponse)
    ensures FindCachedResponse(NewCassette(path), Absent, live).outcome == Success(Missing)
    ensures var find := FindCachedResponse(NewCassette(path), Absent, live);
            var store := StoreCachedResponse(find.cassette, Absent, request, response);
            && store.outcome.Success?
            && FlushToDisk(store.cassette) ==
                 Success(Present(CachedRequestResponseArray(Some([CachedRequestResponse(request, response)]))))
  {
    var start := NewCassette(path);
    var loaded := EnsureLoaded(start, Absent).value;
    assert loaded.cachedEntries == Some([]) && loaded.storedEntries == Some([]);
    var find := FindCachedResponse(start, Absent, live);
    assert find.cassette == loaded;
    var store := StoreCachedResponse(find.cassette, Absent, request, response);
    assert store.cassette.storedEntries == Some([] + [CachedRequestResponse(request, response)]);
    assert [] + [CachedRequestResponse(request, response)] == [CachedRequestResponse(request, response)];
  }
}
