/**
 * geecache/cache.go: the group's main cache, an LRU cache created on first
 * use with the group's byte budget and no eviction callback. The mutex that
 * serialises add and get is not modelled: each call runs alone.
 */
module MainCache {
  import opened ByteViews
  import Lru

  /** cache.go cache: the lazily created LRU cache and its budget. */
  class Cache {
    var lru: Lru.Cache?
    const cacheBytes: int

    /** Once created, the LRU cache is well formed, has the budget and no callback. */
    ghost predicate Valid()
      reads this, lru
    {
      lru != null ==> lru.Valid() && lru.maxBytes == cacheBytes && !lru.hasOnEvicted
    }

    /** The list of entries, most recently used first; none before the first add. */
    ghost function Entries(): seq<Lru.Entry>
      reads this, lru
    {
      if lru == null then [] else lru.ll
    }

    /** The cached values by key. */
    ghost function Contents(): map<string, ByteView>
      reads this, lru
    {
      if lru == null then map[] else lru.cache
    }

    /** The byte count the LRU cache keeps. */
    ghost function Bytes(): int
      reads this, lru
    {
      if lru == null then 0 else lru.nBytes
    }

    /** The byte count equals the bytes of the listed entries. */
    ghost predicate Accounted()
      reads this, lru
    {
      Bytes() == Lru.TotalSize(Entries())
    }

    /** The eviction loop of add(key, value) stops. */
    ghost predicate AddTerminates(key: string, value: ByteView)
      reads this, lru
    {
      Lru.Terminates(Lru.Touch(Entries(), key, value), Lru.Charge(Bytes(), Contents(), key, value), cacheBytes)
    }

    /**
     * The state add(key, value) leaves when it starts from list s0, contents
     * m0 and count n0: the pair is put at the front, overwriting any old
     * entry for key, then the entries the eviction loop removes from the
     * back are gone, with their keys and sizes.
     */
    ghost predicate Added(s0: seq<Lru.Entry>, m0: map<string, ByteView>, n0: int, key: string, value: ByteView)
      reads this, lru
    {
      var s := Lru.Touch(s0, key, value);
      var k := Lru.Kept(s, Lru.Charge(n0, m0, key, value), cacheBytes);
      && Entries() == s[..k]
      && Contents() == m0[key := value] - Lru.KeySet(s[k..])
      && Bytes() == Lru.Charge(n0, m0, key, value) - Lru.TotalSize(s[k..])
    }

    /** The zero cache of a new group: no LRU cache yet. */
    constructor (cacheBytes: int)
      ensures Valid() && Accounted()
      ensures this.cacheBytes == cacheBytes && lru == null
    {
      this.cacheBytes := cacheBytes;
      lru := null;
    }

    /**
     * cache.go add: creates the LRU cache if there is none yet, then adds
     * the pair to it, evicting from the back as Lru.Cache.Add does.
     */
    method Add(key: string, value: ByteView)
      requires Valid() && AddTerminates(key, value)
      modifies this, lru
      ensures Valid() && lru != null
      ensures old(lru) != null ==> lru == old(lru)
      ensures old(lru) == null ==> fresh(lru)
      ensures Added(old(Entries()), old(Contents()), old(Bytes()), key, value)
      ensures cacheBytes == 0 || Bytes() <= cacheBytes
      ensures old(Accounted()) && key !in old(Contents()) ==> Accounted()
      ensures key in Contents() ==> Contents()[key] == value
    {
      if lru == null {
        lru := new Lru.Cache(cacheBytes, false);
      }
      var l := lru;
      ghost var s, m, n := l.ll, l.cache, l.nBytes;
      if key !in m {
        Lru.InsertAccounting(s, m, n, key, value);
      }
      l.Add(key, value);
      assert lru == l;
    }

    /**
     * cache.go get: the cached value and true on a hit, which also makes the
     * entry the most recently used; the zero ByteView and false on a miss or
     * before the first add.
     */
    method Get(key: string) returns (value: ByteView, ok: bool)
      requires Valid()
      modifies lru
      ensures Valid() && lru == old(lru)
      ensures ok == (key in old(Contents()))
      ensures ok ==> value == old(Contents())[key]
      ensures !ok ==> value == ByteView([])
      ensures ok ==> var i := Lru.Find(old(Entries()), key);
                     i < |old(Entries())| && Entries() == Lru.MoveToFront(old(Entries()), i)
      ensures !ok ==> Entries() == old(Entries())
      ensures Contents() == old(Contents()) && Bytes() == old(Bytes())
      ensures Lru.TotalSize(Entries()) == Lru.TotalSize(old(Entries()))
    {
      if lru == null {
        return ByteView([]), false;
      }
      ghost var s, m := lru.ll, lru.cache;
      value, ok := lru.Get(key);
      if ok {
        Lru.TouchIsMove(s, m, key);
        Lru.TouchSize(s, m, key, value);
      }
    }
  }

  /**
   * A key that is not cached yet can always be added to an accounted cache
   * with a non-negative budget: the eviction loop stops.
   */
  lemma {:induction false} InsertTerminates(c: Cache, key: string, value: ByteView)
    requires c.Valid() && c.Accounted() && c.cacheBytes >= 0 && key !in c.Contents()
    ensures c.AddTerminates(key, value)
  {
    if c.lru == null {
      Lru.InsertTerminates([], map[], 0, key, value, c.cacheBytes);
    } else {
      Lru.InsertTerminates(c.lru.ll, c.lru.cache, c.lru.nBytes, key, value, c.cacheBytes);
    }
  }

  /**
   * With a negative budget, adding a key the accounted cache does not hold
   * never returns: the eviction loop's guard stays true once the list is
   * empty, so every successful local load of such a group hangs.
   */
  lemma {:induction false} NegativeBudgetHangs(c: Cache, key: string, value: ByteView)
    requires c.Valid() && c.Accounted() && c.cacheBytes < 0 && key !in c.Contents()
    ensures !c.AddTerminates(key, value)
  {
    if c.lru == null {
      Lru.InsertAccounting([], map[], 0, key, value);
    } else {
      Lru.InsertAccounting(c.lru.ll, c.lru.cache, c.lru.nBytes, key, value);
    }
  }
}
