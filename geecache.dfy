/**
 * geecache/geecache.go: a Group is a named cache namespace. Its Get
 * answers from the main cache, and on a miss loads the value: from the peer
 * that owns the key when a peer picker is registered and names one, and
 * otherwise (or when the peer fails) from the group's loader, whose result
 * is copied into the main cache. The registry of groups by name is a class
 * of its own; its read-write lock is not modelled.
 */
module Groups {
  import opened Wrappers
  import opened ByteViews
  import MainCache
  import Lru
  import Http

  /** The loader a group is built with (geecache.go Getter): the bytes of a key, or an error. */
  type Loader = string -> Result<seq<byte>>

  /** A registered peer picker has had its ring set up (PickPeer dereferences it). */
  ghost predicate PickerReady(p: Http.HTTPPool?)
    reads p, if p != null then {p.peers} else {}
  {
    p != null ==> p.Valid() && p.peers != null
  }

  /** A cache namespace (geecache.go Group). */
  class Group {
    const name: string
    const getter: Loader
    const mainCache: MainCache.Cache
    var peers: Http.HTTPPool?
    /** The keys handed to the loader so far, in order. */
    ghost var loads: seq<string>

    /** The main cache is well formed and its byte count is the bytes of its entries. */
    ghost predicate Valid()
      reads this, mainCache, mainCache.lru
    {
      mainCache.Valid() && mainCache.Accounted()
    }

    /** A fresh group with an empty main cache of the given budget (of any sign) and no peer picker. */
    constructor (name: string, cacheBytes: int, getter: Loader)
      ensures Valid() && PickerReady(peers) && fresh(mainCache)
      ensures this.name == name && this.getter == getter && mainCache.cacheBytes == cacheBytes
      ensures mainCache.Contents() == map[] && mainCache.Bytes() == 0
      ensures peers == null && loads == [] && mainCache.lru == null
    {
      this.name := name;
      this.getter := getter;
      mainCache := new MainCache.Cache(cacheBytes);
      peers := null;
      loads := [];
    }

    /** The value the loader gives for key, as a ByteView. */
    function Loaded(key: string): Result<ByteView> {
      match getter(key)
      case Err(e) => Err(e)
      case Ok(b) => Ok(ByteView(b))
    }

    /**
     * getFromPeer: the bytes the peer's getter fetches for this group and
     * key, as a ByteView; its error otherwise.
     */
    function GetFromPeer(peer: Http.HttpGetter, key: string, net: Http.Net): (r: Result<ByteView>)
      ensures r.Ok? <==> peer.Get(net, name, key).Ok?
      ensures r.Ok? ==> r.value.b == peer.Get(net, name, key).value
      ensures r.Err? ==> r.error == peer.Get(net, name, key).error
    {
      match peer.Get(net, name, key)
      case Err(e) => Err(e)
      case Ok(b) => Ok(ByteView(b))
    }

    /**
     * What the remote half of load yields: nothing when there is no peer
     * picker or it names no peer, otherwise the picked peer's answer.
     */
    ghost function Remote(key: string, net: Http.Net): Option<Result<ByteView>>
      reads this, peers, if peers != null then {peers.peers} else {}
      requires PickerReady(peers)
    {
      if peers == null then None
      else match peers.PickPeer(key)
        case None => None
        case Some(peer) => Some(GetFromPeer(peer, key, net))
    }

    /**
     * Loading key adds the loader's value to the main cache: no peer
     * answers it and the loader succeeds.
     */
    ghost predicate Stores(key: string, net: Http.Net)
      reads this, mainCache, mainCache.lru, peers, if peers != null then {peers.peers} else {}
      requires PickerReady(peers)
    {
      && !(Remote(key, net).Some? && Remote(key, net).value.Ok?)
      && getter(key).Ok?
    }

    /**
     * Looking key up returns: the budget is not negative, or the lookup
     * answers without loading, or the load stores nothing. With a negative
     * budget, adding a new key never returns (MainCache.NegativeBudgetHangs).
     * Only a lookup that loads consults the peer picker.
     */
    ghost predicate Finishes(key: string, net: Http.Net)
      reads this, mainCache, mainCache.lru, peers, if peers != null then {peers.peers} else {}
      requires key != "" && key !in mainCache.Contents() ==> PickerReady(peers)
    {
      mainCache.cacheBytes >= 0 || key == "" || key in mainCache.Contents() || !Stores(key, net)
    }

    /**
     * RegisterPeers: installs the peer picker. A second registration is the
     * panic "RegisterPeerPicker called more than once" and changes nothing.
     */
    method RegisterPeers(p: Http.HTTPPool) returns (err: Option<string>)
      modifies this
      ensures old(peers) != null ==> err == Some("RegisterPeerPicker called more than once") && peers == old(peers)
      ensures old(peers) == null ==> err == None && peers == p
      ensures loads == old(loads)
    {
      if peers != null {
        return Some("RegisterPeerPicker called more than once");
      }
      peers := p;
      return None;
    }

    /**
     * Get: "key is required" for the empty key; the cached value on a hit,
     * without loading, which makes the entry the most recently used;
     * otherwise what load gives. Only the last case consults the peer
     * picker, so only it needs the picker's ring to be set up.
     */
    method Get(key: string, net: Http.Net) returns (r: Result<ByteView>)
      requires Valid() && (key != "" && key !in mainCache.Contents() ==> PickerReady(peers)) && Finishes(key, net)
      modifies this, mainCache, mainCache.lru
      ensures Valid() && peers == old(peers)
      ensures mainCache.lru == old(mainCache.lru) || (old(mainCache.lru) == null && fresh(mainCache.lru))
      ensures key == "" ==> mainCache.lru == old(mainCache.lru)
      ensures Answers(key, r, old(mainCache.Entries()), old(mainCache.Contents()), old(mainCache.Bytes()), old(loads))
      ensures key != "" && key !in old(mainCache.Contents()) ==>
                Loads(key, r, old(Remote(key, net)), old(mainCache.Entries()), old(mainCache.Contents()), old(mainCache.Bytes()), old(loads))
    {
      if key == "" {
        return Err("key is required");
      }
      // A miss only reads the LRU cache, so the peer lookup is the same after it.
      ghost var remote := if key in mainCache.Contents() then None else Remote(key, net);
      var v, ok := mainCache.Get(key);
      if ok {
        return Ok(v);
      }
      assert Remote(key, net) == remote;
      r := Load(key, net);
    }

    /**
     * What Get promises for the lookups it answers without loading, given
     * the cache's list, contents and byte count and the loads before it:
     * "key is required" for the empty key, with nothing changed; on a hit
     * the cached value, with nothing loaded, the contents and count kept,
     * and the entry moved to the front of the list.
     */
    ghost predicate Answers(key: string, r: Result<ByteView>,
                            entries0: seq<Lru.Entry>, contents0: map<string, ByteView>, bytes0: int, loads0: seq<string>)
      reads this, mainCache, mainCache.lru
    {
      && (key == "" ==>
            && r == Err("key is required") && loads == loads0 && mainCache.Entries() == entries0
            && mainCache.Contents() == contents0 && mainCache.Bytes() == bytes0)
      && (key != "" && key in contents0 ==>
            && r == Ok(contents0[key]) && loads == loads0
            && mainCache.Contents() == contents0 && mainCache.Bytes() == bytes0
            && var i := Lru.Find(entries0, key);
               i < |entries0| && mainCache.Entries() == Lru.MoveToFront(entries0, i))
    }

    /**
     * What load promises for a key the cache does not hold, given the
     * cache's list, contents and byte count and the loads before it: a
     * remote success is returned as is and nothing local changes;
     * otherwise the loader is called once, and its value, when it has
     * one, is returned and added to the cache.
     */
    ghost predicate Loads(key: string, r: Result<ByteView>, remote: Option<Result<ByteView>>,
                          entries0: seq<Lru.Entry>, contents0: map<string, ByteView>, bytes0: int, loads0: seq<string>)
      reads this, mainCache, mainCache.lru
    {
      if remote.Some? && remote.value.Ok? then
        && r == remote.value && loads == loads0
        && mainCache.Entries() == entries0 && mainCache.Contents() == contents0 && mainCache.Bytes() == bytes0
      else Populated(key, r, entries0, contents0, bytes0, loads0)
    }

    /**
     * What getLocally promises, given the cache's list, contents and byte
     * count and the loads before it: r is the loader's answer; an error
     * leaves the cache as it was; a value is added to the cache as
     * MainCache.Cache.Add adds it, so that it is what the cache now holds
     * for key if it holds key at all, no other key is added, and when the
     * value fits the budget nothing is evicted.
     */
    ghost predicate Populated(key: string, r: Result<ByteView>,
                              entries0: seq<Lru.Entry>, contents0: map<string, ByteView>, bytes0: int, loads0: seq<string>)
      reads this, mainCache, mainCache.lru
    {
      && r == Loaded(key) && loads == loads0 + [key]
      && (r.Err? ==> mainCache.Entries() == entries0 && mainCache.Contents() == contents0 && mainCache.Bytes() == bytes0)
      && (r.Ok? ==>
            && mainCache.Added(entries0, contents0, bytes0, key, r.value)
            && (key in mainCache.Contents() ==> mainCache.Contents()[key] == r.value)
            && (forall k :: k in mainCache.Contents() ==> k in contents0 || k == key)
            && ((mainCache.cacheBytes == 0 || bytes0 + |key| + r.value.Len() <= mainCache.cacheBytes) ==>
                  && mainCache.Contents() == contents0[key := r.value]
                  && mainCache.Bytes() == bytes0 + |key| + r.value.Len()))
    }

    /**
     * load: asks the peer the picker names, if any; on no peer or a failed
     * fetch falls back to loading locally.
     */
    method Load(key: string, net: Http.Net) returns (r: Result<ByteView>)
      requires Valid() && PickerReady(peers) && key !in mainCache.Contents()
      requires mainCache.cacheBytes >= 0 || !Stores(key, net)
      modifies this, mainCache, mainCache.lru
      ensures Valid() && peers == old(peers)
      ensures mainCache.lru == old(mainCache.lru) || (old(mainCache.lru) == null && fresh(mainCache.lru))
      ensures Loads(key, r, old(Remote(key, net)), old(mainCache.Entries()), old(mainCache.Contents()), old(mainCache.Bytes()), old(loads))
    {
      if peers != null {
        var picker := peers;
        var picked := picker.PickPeer(key);
        if picked.Some? {
          r := GetFromPeer(picked.value, key, net);
          if r.Ok? {
            return r;
          }
          assert Remote(key, net) == Some(r);
        } else {
          assert Remote(key, net) == None;
        }
      }
      r := GetLocally(key);
    }

    /**
     * getLocally: calls the loader; on success copies the bytes into a new
     * ByteView, adds it to the main cache (populateCache) and returns it.
     * Only called for keys the cache does not hold, which is what lets the
     * eviction loop finish.
     */
    method GetLocally(key: string) returns (r: Result<ByteView>)
      requires Valid() && key !in mainCache.Contents() && (mainCache.cacheBytes >= 0 || getter(key).Err?)
      modifies this, mainCache, mainCache.lru
      ensures Valid() && peers == old(peers)
      ensures mainCache.lru == old(mainCache.lru) || (old(mainCache.lru) == null && fresh(mainCache.lru))
      ensures Populated(key, r, old(mainCache.Entries()), old(mainCache.Contents()), old(mainCache.Bytes()), old(loads))
    {
      var loaded := getter(key);
      loads := loads + [key];
      if loaded.Err? {
        return Err(loaded.error);
      }
      var bytes := CloneBytes(loaded.value);
      var value := ByteView(bytes[..]);
      assert value == ByteView(loaded.value);
      PopulateCache(key, value);
      r := Ok(value);
    }

    /**
     * populateCache: adds a new key's value to the main cache, with the
     * evictions MainCache.Cache.Add makes.
     */
    method PopulateCache(key: string, value: ByteView)
      requires Valid() && key !in mainCache.Contents() && mainCache.cacheBytes >= 0
      modifies mainCache, mainCache.lru
      ensures Valid()
      ensures mainCache.lru == old(mainCache.lru) || (old(mainCache.lru) == null && fresh(mainCache.lru))
      ensures mainCache.Added(old(mainCache.Entries()), old(mainCache.Contents()), old(mainCache.Bytes()), key, value)
      ensures key in mainCache.Contents() ==> mainCache.Contents()[key] == value
      ensures forall k :: k in mainCache.Contents() ==> k in old(mainCache.Contents()) || k == key
      ensures (mainCache.cacheBytes == 0 || old(mainCache.Bytes()) + |key| + value.Len() <= mainCache.cacheBytes) ==>
                && mainCache.Contents() == old(mainCache.Contents())[key := value]
                && mainCache.Bytes() == old(mainCache.Bytes()) + |key| + value.Len()
    {
      var c := mainCache;
      MainCache.InsertTerminates(c, key, value);
      ghost var s, m, n := c.Entries(), c.Contents(), c.Bytes();
      c.Add(key, value);
      if c.cacheBytes == 0 || n + |key| + value.Len() <= c.cacheBytes {
        Lru.NothingEvicted(Lru.Touch(s, key, value), Lru.Charge(n, m, key, value), c.cacheBytes);
        assert m[key := value] - {} == m[key := value];
      }
    }
  }

  /** The groups by name (geecache.go groups). */
  class Registry {
    var groups: map<string, Group>

    constructor ()
      ensures groups == map[]
    {
      groups := map[];
    }

    /**
     * NewGroup: a nil loader is the panic "nil Getter"; otherwise a fresh
     * group is registered under name, replacing any group of that name.
     */
    method NewGroup(name: string, cacheBytes: int, getter: Option<Loader>) returns (r: Result<Group>)
      modifies this
      ensures getter.None? ==> r == Err("nil Getter") && groups == old(groups)
      ensures getter.Some? ==>
                && r.Ok? && fresh(r.value) && fresh(r.value.mainCache) && r.value.Valid()
                && r.value.name == name && r.value.getter == getter.value
                && r.value.mainCache.cacheBytes == cacheBytes
                && r.value.mainCache.Contents() == map[] && r.value.mainCache.Bytes() == 0
                && r.value.peers == null && r.value.loads == [] && r.value.mainCache.lru == null
                && groups == old(groups)[name := r.value]
    {
      if getter.None? {
        return Err("nil Getter");
      }
      var g := new Group(name, cacheBytes, getter.value);
      groups := groups[name := g];
      return Ok(g);
    }

    /** GetGroup: the group registered under name, or none. */
    function GetGroup(name: string): (g: Option<Group>)
      reads this
      ensures g.Some? <==> name in groups
      ensures g.Some? ==> g.value == groups[name]
    {
      if name in groups then Some(groups[name]) else None
    }
  }
}
