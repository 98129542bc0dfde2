/**
 * The client side and the peer table of geecache/http.go: the HTTPPool
 * that picks, by consistent hashing, which peer owns a key, and the
 * httpGetter that fetches a value from a peer. Sockets are not modelled:
 * url.QueryEscape and the HTTP round trip (http.Get followed by reading the
 * body) are the fields of a Net value the caller passes in.
 */
module Http {
  import opened Wrappers
  import opened ByteViews
  import opened ConsistentHash

  /** The prefix of every peer-to-peer request path (http.go defaultBasePath). */
  const defaultBasePath: string := "/_geecache/"

  /** The virtual nodes per peer on the pool's ring (http.go defaultReplicas). */
  const defaultReplicas: int := 50

  /** What a peer answered: the status code, the status line and the body as read, or the read error. */
  datatype Response = Response(statusCode: int, status: string, body: Result<seq<byte>>)

  /**
   * The network: escape is url.QueryEscape, get is http.Get of a URL, which
   * either fails with a transport error or yields a response.
   */
  datatype Net = Net(escape: string -> string, get: string -> Result<Response>)

  /** The client for one peer (http.go httpGetter): the peer's address followed by the base path. */
  datatype HttpGetter = HttpGetter(baseURL: string) {

    /**
     * The URL Get requests: the base URL, the escaped group and the escaped
     * key, written one after the other with no '/' between group and key.
     */
    function FetchURL(escape: string -> string, group: string, key: string): (u: string)
      ensures |u| == |baseURL| + |escape(group)| + |escape(key)|
      ensures u[..|baseURL|] == baseURL && u[|baseURL|..] == escape(group) + escape(key)
    {
      baseURL + escape(group) + escape(key)
    }

    /**
     * httpGetter.Get: fetches the value of key in group from this peer. A
     * transport error is passed up unchanged, a status other than 200
     * becomes "server returned: " and the status, a read error becomes
     * "reading response body: " and the error; otherwise the body is the
     * value.
     */
    function Get(net: Net, group: string, key: string): (r: Result<seq<byte>>)
      ensures r.Ok? <==> (var res := net.get(FetchURL(net.escape, group, key));
                          res.Ok? && res.value.statusCode == 200 && res.value.body.Ok?)
      ensures r.Ok? ==> r.value == net.get(FetchURL(net.escape, group, key)).value.body.value
      ensures (var res := net.get(FetchURL(net.escape, group, key));
               res.Ok? && res.value.statusCode != 200 ==> r == Err("server returned: " + res.value.status))
    {
      match net.get(FetchURL(net.escape, group, key))
      case Err(e) => Err(e)
      case Ok(res) =>
        if res.statusCode != 200 then Err("server returned: " + res.status)
        else match res.body
          case Err(e) => Err("reading response body: " + e)
          case Ok(b) => Ok(b)
    }
  }

  /**
   * Without a separator the URL does not determine the group and key: with
   * an escape that leaves letters alone, group "ab" with key "c" and group
   * "a" with key "bc" are fetched from the same URL.
   */
  lemma {:induction false} FetchURLAmbiguous(g: HttpGetter, escape: string -> string)
    requires forall s :: escape(s) == s
    ensures g.FetchURL(escape, "ab", "c") == g.FetchURL(escape, "a", "bc")
  {
    assert "ab" + "c" == "a" + "bc";
  }

  /** The peers' getters after Set(peers): one per peer, with the peer's address followed by basePath. */
  ghost predicate GettersFor(getters: map<string, HttpGetter>, peers: seq<string>, basePath: string) {
    && (forall p :: p in getters <==> p in peers)
    && (forall p :: p in getters ==> getters[p] == HttpGetter(p + basePath))
  }

  /** The getter table Set fills, one peer at a time. */
  method MakeGetters(ps: seq<string>, basePath: string) returns (getters: map<string, HttpGetter>)
    ensures GettersFor(getters, ps, basePath)
  {
    getters := map[];
    for i := 0 to |ps|
      invariant GettersFor(getters, ps[..i], basePath)
    {
      assert ps[..i + 1] == ps[..i] + [ps[i]];
      getters := getters[ps[i] := HttpGetter(ps[i] + basePath)];
    }
    assert ps[..|ps|] == ps;
  }

  /** The pool of peers this process talks to (http.go HTTPPool). */
  class HTTPPool {
    /** This peer's own address. */
    const self: string
    const basePath: string
    /** The hash of the ring Set builds: consistenthash.New's default, crc32.ChecksumIEEE. */
    const crc32: Hash
    var peers: Map?
    var httpGetters: map<string, HttpGetter>

    /** After a Set, the ring holds exactly the peers that have getters. */
    ghost predicate Valid()
      reads this, peers
    {
      peers != null ==> peers.Valid() && GettersFor(httpGetters, peers.added, basePath)
    }

    /** NewHTTPPool: no ring and no getters yet, requests served under defaultBasePath. */
    constructor (self: string, crc32: Hash)
      ensures Valid()
      ensures this.self == self && basePath == defaultBasePath && this.crc32 == crc32
      ensures peers == null && httpGetters == map[]
    {
      this.self := self;
      basePath := defaultBasePath;
      this.crc32 := crc32;
      peers := null;
      httpGetters := map[];
    }

    /**
     * Set: replaces the ring by a new one with defaultReplicas virtual
     * nodes per peer holding exactly these peers, and the getter table by
     * one getter per peer.
     */
    method Set(ps: seq<string>)
      modifies this
      ensures Valid() && peers != null && fresh(peers)
      ensures peers.added == ps && peers.replicas == defaultReplicas && peers.hash == crc32
      ensures peers.keys == Ring(crc32, defaultReplicas, ps)
      ensures GettersFor(httpGetters, ps, basePath)
    {
      var ring := new Map(defaultReplicas, None, crc32);
      ring.Add(ps);
      assert ring.added == ps;
      peers := ring;
      httpGetters := MakeGetters(ps, basePath);
    }

    /**
     * PickPeer: the getter of the peer the ring assigns key to, when there
     * is such a peer and it is not this process.
     */
    function PickPeer(key: string): (r: Option<HttpGetter>)
      reads this, peers
      requires Valid() && peers != null
      ensures r.Some? <==> peers.Get(key) != "" && peers.Get(key) != self
      ensures r.Some? ==> peers.Get(key) in peers.added && r.value == HttpGetter(peers.Get(key) + basePath)
    {
      var peer := peers.Get(key);
      if peer != "" && peer != self then
        PickedIsPeer(this, key);
        Some(httpGetters[peer])
      else None
    }
  }

  /** A non-empty ring answer names one of the added peers, which has a getter. */
  lemma {:induction false} PickedIsPeer(p: HTTPPool, key: string)
    requires p.Valid() && p.peers != null && p.peers.Get(key) != ""
    ensures p.peers.Get(key) in p.peers.added && p.peers.Get(key) in p.httpGetters
  {
    p.peers.GetOwner(key);
  }
}
