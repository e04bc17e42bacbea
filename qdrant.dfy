/** qdrant/qdrant.go: the `QdrantRag` handle, its host and port defaults, and
    the fixed search `GetPoints` sends. */
module Qdrant {
  import opened Common

  /** `QdrantDefaulHost`. */
  const DefaultHost: string := "localhost"

  /** `QdrantDefaultPort`. */
  const DefaultPort: int := 6334

  /** The host `NewQdrantRag` settles on: the given one, or the default when empty. */
  function EffectiveHost(host: string): (h: string)
    ensures h != ""
    ensures host != "" ==> h == host
    ensures host == "" ==> h == DefaultHost
  {
    if |host| == 0 then DefaultHost else host
  }

  /** The port `NewQdrantRag` settles on: the given one when positive, else the default. */
  function EffectivePort(port: int): (p: int)
    ensures p > 0
    ensures port > 0 ==> p == port
    ensures port <= 0 ==> p == DefaultPort
  {
    if port <= 0 then DefaultPort else port
  }

  /** The defaults are settled once and for all: a host and port already
      settled stay as they are. */
  lemma DefaultsIdempotent(host: string, port: int)
    ensures EffectiveHost(EffectiveHost(host)) == EffectiveHost(host)
    ensures EffectivePort(EffectivePort(port)) == EffectivePort(port)
  {
  }

  /** The settled host and port are exactly the ones that are not replaced: a
      non-empty host and a positive port. */
  lemma SettledIff(host: string, port: int)
    ensures EffectiveHost(host) == host <==> host != ""
    ensures EffectivePort(port) == port <==> port > 0
  {
  }

  /** The `qdrant.SearchPoints` request; the payload selector is reduced to its
      `Enable` flag and the float32 vector components to reals. */
  datatype SearchRequest = SearchRequest(collectionName: string, vector: seq<real>, limit: nat, withPayload: bool)

  /** The request `GetPoints` sends: the given collection, the zero vector of
      four components, at most three points, with their payloads. */
  function PointsQuery(collection: string): (r: SearchRequest)
    ensures r.collectionName == collection
    ensures |r.vector| == 4 && forall i :: 0 <= i < |r.vector| ==> r.vector[i] == 0.0
    ensures r.limit == 3 && r.withPayload
  {
    SearchRequest(collection, [0.0, 0.0, 0.0, 0.0], 3, true)
  }

  /** `QdrantRag`: the settled address and the client connected to it. */
  class QdrantRag {
    var QdrantUriHost: string
    var QdrantUriPort: int
    var QdrantClient: Option<Client>

    /** A handle `NewQdrantRag` returns has a client. */
    ghost predicate Valid()
      reads this
    {
      QdrantClient.Some?
    }

    /** The struct literal of `NewQdrantRag`, before the client exists. */
    constructor (host: string, port: int)
      ensures QdrantUriHost == host && QdrantUriPort == port && QdrantClient == None
    {
      QdrantUriHost := host;
      QdrantUriPort := port;
      QdrantClient := None;
    }

    /** `GetPoints`: searches `collection` with the fixed query; `text` plays no
        part. The search's error is returned as it is; the points found are
        only logged, so any successful search gives nil. */
    method GetPoints<R>(collection: string, text: string, search: (Client, SearchRequest) -> Result<R>)
      returns (err: Option<Error>)
      requires Valid()
      ensures err == ErrorOf(search(QdrantClient.value, PointsQuery(collection)))
    {
      var sr := search(QdrantClient.value, PointsQuery(collection));
      if sr.Failure? {
        return Some(sr.error);
      }
      return None;
    }
  }

  /** `NewQdrantRag`: settles the host and port, then connects a client to
      exactly the address stored in the new handle. When that fails,
      `log.Fatalf` ends the process: `exit` is its message and there is no
      handle. */
  method NewQdrantRag(host: string, port: int, newClient: ClientConfig -> Result<Client>)
    returns (q: QdrantRag?, exit: Option<Error>)
    ensures var created := newClient(ClientConfig(EffectiveHost(host), EffectivePort(port)));
      && (created.Failure? ==> q == null && exit == Some(created.error))
      && (created.Success? ==>
            && q != null && fresh(q) && exit == None && q.Valid()
            && q.QdrantUriHost == EffectiveHost(host) && q.QdrantUriPort == EffectivePort(port)
            && q.QdrantClient == Some(created.value))
  {
    var h, p := host, port;
    if |h| == 0 {
      h := DefaultHost;
    }
    if p <= 0 {
      p := DefaultPort;
    }
    var handle := new QdrantRag(h, p);
    var created := newClient(ClientConfig(handle.QdrantUriHost, handle.QdrantUriPort));
    handle.QdrantClient := if created.Success? then Some(created.value) else None;
    if created.Failure? {
      return null, Some(created.error);
    }
    return handle, None;
  }
}
