/**
 * The server side of geecache/http.go: HTTPPool.ServeHTTP answers a peer's
 * request for <basePath><group>/<key> from the named group of the registry.
 * The request is its URL path; the response is an Outcome (the panic, an
 * http.Error with its status code and message, or the bytes written with
 * their content type). Logging is not modelled.
 */
module HttpServer {
  import opened Wrappers
  import opened ByteViews
  import opened Groups
  import opened Http

  /** Where a request path leads: outside the base path, malformed, or to a group and a key. */
  datatype Route = Unexpected | BadRequest | Lookup(group: string, key: string)

  /** What ServeHTTP does with a request. */
  datatype Outcome =
    | Panic(message: string)
    | HttpError(code: int, message: string)
    | Served(contentType: string, body: seq<byte>)

  /** The position of the first '/' in s, or |s| when there is none. */
  function Slash(s: string): (i: nat)
    ensures i <= |s|
    ensures i < |s| ==> s[i] == '/'
    ensures forall j :: 0 <= j < i ==> s[j] != '/'
    decreases |s|
  {
    if s == [] then 0
    else if s[0] == '/' then 0
    else
      var i := Slash(s[1..]);
      assert forall j :: 1 <= j < |s| ==> s[j] == s[1..][j - 1];
      1 + i
  }

  /**
   * ServeHTTP's parsing of the path: a path not starting with basePath is
   * unexpected; the rest is split at its first '/' into group and key
   * (strings.SplitN with n = 2), and a rest without '/' is a bad request.
   */
  function RouteOf(basePath: string, path: string): (r: Route)
    ensures r.Unexpected? <==> !(basePath <= path)
    ensures r.BadRequest? <==> basePath <= path && forall j :: |basePath| <= j < |path| ==> path[j] != '/'
    ensures r.Lookup? ==> path == basePath + r.group + "/" + r.key && forall j :: 0 <= j < |r.group| ==> r.group[j] != '/'
  {
    if !(basePath <= path) then Unexpected
    else
      var rest := path[|basePath|..];
      var i := Slash(rest);
      assert forall j :: |basePath| <= j < |path| ==> path[j] == rest[j - |basePath|];
      if i == |rest| then BadRequest
      else
        assert path == basePath + rest[..i] + "/" + rest[i + 1..] by {
          assert rest == rest[..i] + [rest[i]] + rest[i + 1..];
        }
        Lookup(rest[..i], rest[i + 1..])
  }

  /** A path built from a group without '/' and any key is routed back to that group and key. */
  lemma {:induction false} RouteRoundTrip(basePath: string, group: string, key: string)
    requires forall j :: 0 <= j < |group| ==> group[j] != '/'
    ensures RouteOf(basePath, basePath + group + "/" + key) == Lookup(group, key)
  {
    var path := basePath + group + "/" + key;
    assert path[..|basePath|] == basePath;
    var rest := path[|basePath|..];
    assert rest == group + "/" + key;
    assert rest[|group|] == '/';
    var i := Slash(rest);
    assert i == |group|;
    assert rest[..i] == group;
    assert rest[i + 1..] == key;
  }

  /**
   * The URL a peer's getter fetches has no '/' between the group and the
   * key, so when neither the escaped group nor the escaped key holds a '/',
   * the path under defaultBasePath is a bad request to the peer's server.
   */
  lemma {:induction false} PeerFetchRejected(group: string, key: string)
    requires forall j :: 0 <= j < |group| ==> group[j] != '/'
    requires forall j :: 0 <= j < |key| ==> key[j] != '/'
    ensures RouteOf(defaultBasePath, defaultBasePath + group + key) == BadRequest
  {
    var path := defaultBasePath + group + key;
    assert path[..|defaultBasePath|] == defaultBasePath;
    forall j | |defaultBasePath| <= j < |path|
      ensures path[j] != '/'
    {
      if j < |defaultBasePath| + |group| {
        assert path[j] == group[j - |defaultBasePath|];
      } else {
        assert path[j] == key[j - |defaultBasePath| - |group|];
      }
    }
  }

  /** The group a request path names, when the registry has one by that name. */
  ghost function Target(registry: Registry, basePath: string, path: string): Option<Group>
    reads registry
  {
    match RouteOf(basePath, path)
    case Lookup(name, _) => registry.GetGroup(name)
    case _ => None
  }

  /** What serving a request may change: the named group and its main cache. */
  ghost function Footprint(g: Option<Group>): set<object>
    reads if g.Some? then {g.value.mainCache} else {}
  {
    if g.None? then {}
    else if g.value.mainCache.lru == null then {g.value, g.value.mainCache}
    else {g.value, g.value.mainCache, g.value.mainCache.lru}
  }

  /**
   * The named group, if any, is well formed, any peer picker it has is set
   * up when the routed key is to be loaded, and looking the key up in it
   * returns.
   */
  ghost predicate Ready(g: Option<Group>, route: Route, net: Net)
    reads if g.Some? then {g.value} else {}
    reads if g.Some? then {g.value.mainCache} else {}
    reads if g.Some? && g.value.mainCache.lru != null then {g.value.mainCache.lru} else {}
    reads if g.Some? && g.value.peers != null then {g.value.peers} else {}
    reads if g.Some? && g.value.peers != null && g.value.peers.peers != null then {g.value.peers.peers} else {}
  {
    g.Some? ==>
      && g.value.Valid()
      && (route.Lookup? && route.key != "" && route.key !in g.value.mainCache.Contents() ==> PickerReady(g.value.peers))
      && (route.Lookup? ==> g.value.Finishes(route.key, net))
  }

  /**
   * HTTPPool.ServeHTTP: the panic for a path outside the base path, 400
   * "bad request" for a path without group and key, 404 "no such group:"
   * for an unknown group, and otherwise what Serve answers for the key.
   * got is the group's answer.
   */
  method ServeHTTP(p: HTTPPool, registry: Registry, path: string, net: Net)
    returns (o: Outcome, ghost got: Result<ByteView>)
    requires Ready(Target(registry, p.basePath, path), RouteOf(p.basePath, path), net)
    modifies Footprint(Target(registry, p.basePath, path))
    ensures RouteOf(p.basePath, path).Unexpected? ==> o == Panic("HTTPPool serving unexpected path: " + path)
    ensures RouteOf(p.basePath, path).BadRequest? ==> o == HttpError(400, "bad request")
    ensures RouteOf(p.basePath, path).Lookup? && RouteOf(p.basePath, path).group !in registry.groups ==>
              o == HttpError(404, "no such group:" + RouteOf(p.basePath, path).group)
    ensures RouteOf(p.basePath, path).Lookup? && RouteOf(p.basePath, path).group in registry.groups ==>
              var g, key := old(registry.groups[RouteOf(p.basePath, path).group]), RouteOf(p.basePath, path).key;
              && Responds(o, got)
              && g.Valid() && g.peers == old(g.peers)
              && (key == "" ==> g.mainCache.lru == old(g.mainCache.lru))
              && g.Answers(key, got, old(g.mainCache.Entries()), old(g.mainCache.Contents()), old(g.mainCache.Bytes()), old(g.loads))
  {
    got := Err("");
    var route := RouteOf(p.basePath, path);
    if route.Unexpected? {
      return Panic("HTTPPool serving unexpected path: " + path), got;
    }
    if route.BadRequest? {
      return HttpError(400, "bad request"), got;
    }
    var group := registry.GetGroup(route.group);
    if group.None? {
      return HttpError(404, "no such group:" + route.group), got;
    }
    o, got := Serve(group.value, route.key, net);
  }

  /** The response written for the group's answer: 500 with the error text, or the bytes as application/octet-stream. */
  ghost predicate Responds(o: Outcome, got: Result<ByteView>) {
    && (got.Err? ==> o == HttpError(500, got.error))
    && (got.Ok? ==> o == Served("application/octet-stream", got.value.b))
  }

  /**
   * The end of ServeHTTP once the group is found: the response for what
   * the group's Get answers, which is "key is required" for the empty key,
   * the cached value on a hit, and what load gives otherwise; the group
   * changes as its Get changes it.
   */
  method Serve(g: Group, key: string, net: Net) returns (o: Outcome, ghost got: Result<ByteView>)
    requires g.Valid() && (key != "" && key !in g.mainCache.Contents() ==> PickerReady(g.peers)) && g.Finishes(key, net)
    modifies g, g.mainCache, g.mainCache.lru
    ensures Responds(o, got)
    ensures g.Valid() && g.peers == old(g.peers)
    ensures g.mainCache.lru == old(g.mainCache.lru) || (old(g.mainCache.lru) == null && fresh(g.mainCache.lru))
    ensures key == "" ==> g.mainCache.lru == old(g.mainCache.lru)
    ensures g.Answers(key, got, old(g.mainCache.Entries()), old(g.mainCache.Contents()), old(g.mainCache.Bytes()), old(g.loads))
    ensures key != "" && key !in old(g.mainCache.Contents()) ==>
              g.Loads(key, got, old(g.Remote(key, net)), old(g.mainCache.Entries()), old(g.mainCache.Contents()),
                      old(g.mainCache.Bytes()), old(g.loads))
  {
    var r := g.Get(key, net);
    got := r;
    if r.Err? {
      return HttpError(500, r.error), got;
    }
    var bytes := r.value.ByteSlice();
    o := Served("application/octet-stream", bytes[..]);
  }
}
