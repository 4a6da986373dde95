/**
 * The client's service worker: which requests it answers, its cache-first policy for the
 * ones it answers, the static assets it caches on install, and the cleanup on activation.
 * The cache storage is a value; the browser's asynchronous cache and fetch calls are not modelled.
 */
module ServiceWorker {
  import opened Wrappers
  import opened Strings

  const CacheName := "researcher-pro-v1"
  const StaticAssets: seq<string> := ["/", "/index.html", "/manifest.json", "/icons/icon-192.svg", "/icons/icon-512.svg"]
  const OpenAiHost := "api.openai.com"

  datatype Request = Request(verb: string, host: string, path: string)
  datatype Response = Response(status: int, body: string)

  /** A cache maps requests to stored responses; the storage maps cache names to caches. */
  type Cache = map<Request, Response>
  type Storage = map<string, Cache>

  /** Whether the worker answers a request itself. Non-GET requests, paths with the raw
      prefix "/api" or "/session", and requests to the OpenAI host all go straight to the network. */
  predicate Intercepts(req: Request) {
    && req.verb == "GET"
    && !StartsWith(req.path, "/api")
    && !StartsWith(req.path, "/session")
    && req.host != OpenAiHost
  }

  /** What the worker does with one request. */
  datatype Handling =
    | PassThrough                                           // no respondWith: the browser fetches
    | FromCache(hit: Response)                              // a cache hit, served without fetching
    | FromNetwork(answer: Option<Response>, store: bool)    // the network's answer, maybe stored

  /** The fetch handler, given the cache lookup and the network answer it would get. */
  function HandleFetch(req: Request, cached: Option<Response>, network: Option<Response>): (h: Handling)
    ensures h.PassThrough? <==> !Intercepts(req)
    ensures req.verb != "GET" ==> h.PassThrough?
    ensures Intercepts(req) && cached.Some? ==> h == FromCache(cached.value)
    ensures Intercepts(req) && cached.None? ==> h.FromNetwork? && h.answer == network
    ensures h.FromNetwork? ==> (h.store <==> network.Some? && network.value.status == 200)
  {
    if !Intercepts(req) then PassThrough
    else if cached.Some? then FromCache(cached.value)
    else if network.None? || network.value.status != 200 then FromNetwork(network, false)
    else FromNetwork(network, true)
  }

  /** A cache hit never consults the network: the answer is the same whatever it would say. */
  lemma CacheHitIgnoresNetwork(req: Request, c: Response, n1: Option<Response>, n2: Option<Response>)
    ensures HandleFetch(req, Some(c), n1) == HandleFetch(req, Some(c), n2)
  {
  }

  /** The prefix test is on the raw path, so "/apiary" is not served from the cache either. */
  lemma RawPrefixBypass(host: string)
    ensures !Intercepts(Request("GET", host, "/apiary"))
    ensures !Intercepts(Request("GET", host, "/sessions/1"))
  {
    assert "/apiary"[..4] == "/api";
    assert "/sessions/1"[..8] == "/session";
  }

  function CacheOf(storage: Storage, name: string): Cache {
    if name in storage then storage[name] else map[]
  }

  /** The storage after the handler's `cache.put`, which happens only for a stored network answer. */
  function AfterFetch(storage: Storage, req: Request, h: Handling): (r: Storage)
    ensures !(h.FromNetwork? && h.store && h.answer.Some?) ==> r == storage
    ensures h.FromNetwork? && h.store && h.answer.Some? ==>
              && r.Keys == storage.Keys + {CacheName}
              && r[CacheName] == CacheOf(storage, CacheName)[req := h.answer.value]
              && (forall n :: n in storage && n != CacheName ==> r[n] == storage[n])
  {
    if h.FromNetwork? && h.store && h.answer.Some? then
      storage[CacheName := CacheOf(storage, CacheName)[req := h.answer.value]]
    else storage
  }

  /** Only a status-200 network answer ever enters the cache, and it is the answer served. */
  lemma StoredOnlyOk(storage: Storage, req: Request, cached: Option<Response>, network: Option<Response>)
    ensures var r := AfterFetch(storage, req, HandleFetch(req, cached, network));
      r != storage ==> Intercepts(req) && cached.None? && network.Some? && network.value.status == 200
                       && r[CacheName][req] == network.value
  {
  }

  /** The request for a static asset of the worker's own origin. */
  function AssetRequest(origin: string, path: string): Request {
    Request("GET", origin, path)
  }

  /** The requests for the five static assets. */
  function AssetRequests(origin: string): set<Request> {
    set i | 0 <= i < |StaticAssets| :: AssetRequest(origin, StaticAssets[i])
  }

  /** Install: open (creating if need be) the current cache and add all five static assets.
      `fetched` holds the asset responses in list order, or None when a fetch fails. `addAll`
      rejects when a fetch fails or any response is not ok (status 200 to 299), and then the
      opened cache gains nothing. */
  function Install(storage: Storage, origin: string, fetched: Option<seq<Response>>): (r: Storage)
    requires fetched.Some? ==> |fetched.value| == |StaticAssets|
    ensures r.Keys == storage.Keys + {CacheName}
    ensures forall n :: n in storage && n != CacheName ==> r[n] == storage[n]
    ensures !AddAllSucceeds(fetched) ==> r[CacheName] == CacheOf(storage, CacheName)
    ensures AddAllSucceeds(fetched) ==> forall i :: 0 <= i < |StaticAssets| ==>
              AssetRequest(origin, StaticAssets[i]) in r[CacheName]
              && r[CacheName][AssetRequest(origin, StaticAssets[i])] == fetched.value[i]
    ensures AddAllSucceeds(fetched) ==>
              r[CacheName].Keys == CacheOf(storage, CacheName).Keys + AssetRequests(origin)
    ensures forall q :: q in CacheOf(storage, CacheName) && q !in AssetRequests(origin) ==>
              r[CacheName][q] == CacheOf(storage, CacheName)[q]
  {
    var base := CacheOf(storage, CacheName);
    if AddAllSucceeds(fetched) then
      var added := Fetched(origin, fetched.value);
      storage[CacheName := base + added]
    else storage[CacheName := base]
  }

  /** `cache.addAll` resolves: every asset was fetched and every answer is ok. */
  predicate AddAllSucceeds(fetched: Option<seq<Response>>) {
    fetched.Some? && forall i :: 0 <= i < |fetched.value| ==> 200 <= fetched.value[i].status <= 299
  }

  /** The five asset responses keyed by their requests. */
  function Fetched(origin: string, rs: seq<Response>): (m: Cache)
    requires |rs| == |StaticAssets|
    ensures m.Keys == AssetRequests(origin)
    ensures forall i :: 0 <= i < |StaticAssets| ==> m[AssetRequest(origin, StaticAssets[i])] == rs[i]
  {
    AssetPathsDistinct();
    var m := map i | 0 <= i < |StaticAssets| :: AssetRequest(origin, StaticAssets[i]) := rs[i];
    assert forall i :: 0 <= i < |StaticAssets| ==> AssetRequest(origin, StaticAssets[i]) in m;
    m
  }

  lemma AssetPathsDistinct()
    ensures forall i, j :: 0 <= i < j < |StaticAssets| ==> StaticAssets[i] != StaticAssets[j]
  {
  }

  /** The caches activation deletes: every listed name other than the current one, in order. */
  function StaleCaches(names: seq<string>): (r: seq<string>)
    ensures forall n :: n in r <==> n in names && n != CacheName
    ensures |r| <= |names|
  {
    if |names| == 0 then []
    else
      var rest := StaleCaches(names[1..]);
      assert forall n :: n in names <==> n == names[0] || n in names[1..];
      if names[0] != CacheName then [names[0]] + rest else rest
  }

  /** The storage after activation: every cache whose name is not the current one deleted. */
  function Activate(storage: Storage): (r: Storage)
    ensures r.Keys == storage.Keys * {CacheName}
    ensures CacheName in storage ==> CacheName in r && r[CacheName] == storage[CacheName]
  {
    map n | n in storage && n == CacheName :: storage[n]
  }

  /** Activation deletes exactly the caches `StaleCaches` lists for the storage's names. */
  lemma ActivateDeletesStale(storage: Storage, names: seq<string>)
    requires forall n :: n in names <==> n in storage
    ensures forall n :: n in Activate(storage) <==> n in storage && n !in StaleCaches(names)
  {
  }
}
