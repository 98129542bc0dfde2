/**
 * The scenario of geecache/geecache_test.go TestGet: a group "scores" with a
 * budget of 2 << 10 bytes over a three-row database. Each key's first Get
 * loads it, its second Get is a hit, so each key is loaded once, and an
 * unknown key is an error. Go ranges over the database in no fixed order;
 * the model visits Tom, Jack, Sam.
 */
module GroupsTest {
  import opened Wrappers
  import opened ByteViews
  import opened Groups
  import Http

  /** The slow database of the test. */
  const db: map<string, string> := map["Tom" := "630", "Jack" := "589", "Sam" := "567"]

  /** The test's loader: the row's bytes, or "<key> not exsist". */
  function SlowDB(key: string): (r: Result<seq<byte>>)
    ensures r.Ok? <==> key in db
    ensures r.Ok? ==> |key| + |r.value| <= 7 && ByteView(r.value).String() == db[key]
    ensures r.Err? ==> r.error == key + " not exsist"
  {
    if key in db then
      RowsAreBytes(key);
      StringBytesRoundTrip(db[key]);
      Ok(StringBytes(db[key]))
    else Err(key + " not exsist")
  }

  /** Every value of the database is a byte string of three digits, under a key of at most four letters. */
  lemma {:induction false} RowsAreBytes(key: string)
    requires key in db
    ensures IsByteString(db[key]) && |db[key]| == 3 && |key| <= 4
  {
  }

  /**
   * One turn of the test's loop, on a key the group has not cached and
   * whose loaded value fits the budget, with no peers: both Gets yield the
   * loaded value, the key is loaded once, and the cache now holds it.
   */
  method GetTwice(gee: Group, k: string, net: Http.Net) returns (first: Result<ByteView>, second: Result<ByteView>)
    requires gee.Valid() && gee.peers == null
    requires k != "" && k !in gee.mainCache.Contents() && gee.getter(k).Ok?
    requires gee.mainCache.cacheBytes >= 0
    requires gee.mainCache.cacheBytes == 0 || gee.mainCache.Bytes() + |k| + |gee.getter(k).value| <= gee.mainCache.cacheBytes
    modifies gee, gee.mainCache, gee.mainCache.lru
    ensures gee.Valid() && gee.peers == null
    ensures gee.mainCache.lru == old(gee.mainCache.lru) || (old(gee.mainCache.lru) == null && fresh(gee.mainCache.lru))
    ensures first == gee.Loaded(k) && second == first
    ensures gee.loads == old(gee.loads) + [k]
    ensures gee.mainCache.Contents() == old(gee.mainCache.Contents())[k := ByteView(gee.getter(k).value)]
    ensures gee.mainCache.Bytes() == old(gee.mainCache.Bytes()) + |k| + |gee.getter(k).value|
  {
    ghost var v := ByteView(gee.getter(k).value);
    assert gee.Loaded(k) == Ok(v) && v.Len() == |gee.getter(k).value|;
    assert gee.Remote(k, net) == None;
    first := gee.Get(k, net);
    second := gee.Get(k, net);
  }

  /**
   * The loop of TestGet over distinct keys, none cached, each loading a
   * value that fits in 7 bytes with its key, all within the budget: both
   * Gets of each key yield its loaded value and each key is loaded once;
   * a key absent before and not among them is still absent.
   */
  method GetRows(gee: Group, keys: seq<string>, absent: string, net: Http.Net) returns (values: seq<(Result<ByteView>, Result<ByteView>)>)
    requires gee.Valid() && gee.peers == null
    requires forall i, j :: 0 <= i < j < |keys| ==> keys[i] != keys[j]
    requires forall j :: 0 <= j < |keys| ==> keys[j] != "" && gee.getter(keys[j]).Ok? && |keys[j]| + |gee.getter(keys[j]).value| <= 7
    requires forall j :: 0 <= j < |keys| ==> keys[j] !in gee.mainCache.Contents()
    requires gee.mainCache.cacheBytes >= 0
    requires gee.mainCache.cacheBytes == 0 || gee.mainCache.Bytes() + 7 * |keys| <= gee.mainCache.cacheBytes
    requires absent !in keys && absent !in gee.mainCache.Contents()
    modifies gee, gee.mainCache, gee.mainCache.lru
    ensures gee.Valid() && gee.peers == null
    ensures gee.mainCache.lru == old(gee.mainCache.lru) || (old(gee.mainCache.lru) == null && fresh(gee.mainCache.lru))
    ensures gee.loads == old(gee.loads) + keys
    ensures absent !in gee.mainCache.Contents()
    ensures values == Views(gee, keys)
  {
    values := [];
    for i := 0 to |keys|
      invariant gee.mainCache.lru == old(gee.mainCache.lru) || (old(gee.mainCache.lru) == null && fresh(gee.mainCache.lru))
      invariant gee.Valid() && gee.peers == null
      invariant gee.loads == old(gee.loads) + keys[..i]
      invariant absent !in gee.mainCache.Contents()
      invariant forall j :: i <= j < |keys| ==> keys[j] !in gee.mainCache.Contents()
      invariant gee.mainCache.cacheBytes == 0 || gee.mainCache.Bytes() + 7 * (|keys| - i) <= gee.mainCache.cacheBytes
      invariant values == Views(gee, keys[..i])
    {
      values := GetRow(gee, keys, i, absent, net, old(gee.loads), values);
    }
    assert keys[..|keys|] == keys;
  }

  /** The body of GetRows' loop for the key at i, from one state of the loop to the next. */
  method GetRow(gee: Group, keys: seq<string>, i: nat, absent: string, net: Http.Net,
                ghost loads0: seq<string>, values: seq<(Result<ByteView>, Result<ByteView>)>)
    returns (values': seq<(Result<ByteView>, Result<ByteView>)>)
    requires i < |keys| && gee.Valid() && gee.peers == null
    requires forall i, j :: 0 <= i < j < |keys| ==> keys[i] != keys[j]
    requires forall j :: 0 <= j < |keys| ==> keys[j] != "" && gee.getter(keys[j]).Ok? && |keys[j]| + |gee.getter(keys[j]).value| <= 7
    requires gee.loads == loads0 + keys[..i]
    requires absent !in keys && absent !in gee.mainCache.Contents()
    requires forall j :: i <= j < |keys| ==> keys[j] !in gee.mainCache.Contents()
    requires gee.mainCache.cacheBytes >= 0
    requires gee.mainCache.cacheBytes == 0 || gee.mainCache.Bytes() + 7 * (|keys| - i) <= gee.mainCache.cacheBytes
    requires values == Views(gee, keys[..i])
    modifies gee, gee.mainCache, gee.mainCache.lru
    ensures gee.mainCache.lru == old(gee.mainCache.lru) || (old(gee.mainCache.lru) == null && fresh(gee.mainCache.lru))
    ensures gee.Valid() && gee.peers == null
    ensures gee.loads == loads0 + keys[..i + 1]
    ensures absent !in gee.mainCache.Contents()
    ensures forall j :: i + 1 <= j < |keys| ==> keys[j] !in gee.mainCache.Contents()
    ensures gee.mainCache.cacheBytes == 0 || gee.mainCache.Bytes() + 7 * (|keys| - (i + 1)) <= gee.mainCache.cacheBytes
    ensures values' == Views(gee, keys[..i + 1])
  {
    var first, second := GetTwice(gee, keys[i], net);
    values' := values + [(first, second)];
    Extended(gee, loads0, keys, i);
  }

  /** Appending the key at i to a prefix of keys gives the next prefix, for the loads and the views alike. */
  lemma {:induction false} Extended(gee: Group, loads0: seq<string>, keys: seq<string>, i: nat)
    requires i < |keys|
    ensures loads0 + keys[..i] + [keys[i]] == loads0 + keys[..i + 1]
    ensures Views(gee, keys[..i]) + [(gee.Loaded(keys[i]), gee.Loaded(keys[i]))] == Views(gee, keys[..i + 1])
  {
    assert keys[..i + 1] == keys[..i] + [keys[i]];
    assert keys[..i + 1][..i] == keys[..i];
  }

  /** What the two Gets of each key yield when each is loaded once: the loaded value, twice. */
  function Views(gee: Group, keys: seq<string>): (vs: seq<(Result<ByteView>, Result<ByteView>)>)
    ensures |vs| == |keys|
    ensures forall j :: 0 <= j < |keys| ==> vs[j] == (gee.Loaded(keys[j]), gee.Loaded(keys[j]))
  {
    if keys == [] then []
    else
      var k := keys[|keys| - 1];
      Views(gee, keys[..|keys| - 1]) + [(gee.Loaded(k), gee.Loaded(k))]
  }

  /** The test's lookup of a key its loader fails on, with no peers: the loader's error, loaded once, nothing cached. */
  method GetMissing(gee: Group, k: string, net: Http.Net) returns (r: Result<ByteView>)
    requires gee.Valid() && gee.peers == null
    requires k != "" && k !in gee.mainCache.Contents() && gee.getter(k).Err?
    modifies gee, gee.mainCache, gee.mainCache.lru
    ensures r == Err(gee.getter(k).error)
    ensures gee.loads == old(gee.loads) + [k]
    ensures gee.mainCache.Contents() == old(gee.mainCache.Contents())
  {
    r := gee.Get(k, net);
  }

  /** The order in which the model's loop visits the rows. */
  const order: seq<string> := ["Tom", "Jack", "Sam"]

  /**
   * The visiting order lists each row of the database once, each row
   * loads a value that fits in 7 bytes with its key, and "unknow" is
   * neither a row nor loadable.
   */
  lemma {:induction false} OrderIsRows()
    ensures forall k :: k in db <==> k in order
    ensures forall i, j :: 0 <= i < j < |order| ==> order[i] != order[j]
    ensures forall j :: 0 <= j < |order| ==> order[j] != "" && SlowDB(order[j]).Ok? && |order[j]| + |SlowDB(order[j]).value| <= 7
    ensures "unknow" !in order && SlowDB("unknow") == Err("unknow not exsist")
  {
  }

  /** Views of the loaded rows read back as the rows' text. */
  lemma {:induction false} RowsRead(values: seq<(Result<ByteView>, Result<ByteView>)>)
    requires |values| == |order|
    requires forall j :: 0 <= j < |order| ==> values[j] == (Ok(ByteView(SlowDB(order[j]).value)), Ok(ByteView(SlowDB(order[j]).value)))
    ensures forall j :: 0 <= j < |order| ==> Read(values[j], db[order[j]])
  {
    forall j | 0 <= j < |order|
      ensures Read(values[j], db[order[j]])
    {
      OrderIsRows();
    }
  }

  /** Both Gets of a row succeeded, and each view reads back as the row's text. */
  predicate Read(pair: (Result<ByteView>, Result<ByteView>), v: string) {
    && pair.0.Ok? && pair.0.value.String() == v
    && pair.1.Ok? && pair.1.value.String() == v
  }

  /**
   * TestGet: every row is read back twice with its value and loaded
   * exactly once, and "unknow" is an error.
   */
  method TestGet(net: Http.Net) returns (values: seq<(Result<ByteView>, Result<ByteView>)>, unknown: Result<ByteView>, ghost loaded: seq<string>)
    ensures |values| == |order| && forall j :: 0 <= j < |order| ==> Read(values[j], db[order[j]])
    ensures loaded == order + ["unknow"]
    ensures unknown == Err("unknow not exsist")
  {
    var registry := new Registry();
    // 2 << 10 bytes
    var created := registry.NewGroup("scores", 2048, Some(SlowDB));
    var gee := created.value;
    assert gee.mainCache.cacheBytes == 2048 && gee.mainCache.Bytes() == 0 && gee.mainCache.Contents() == map[];
    OrderIsRows();
    values := GetRows(gee, order, "unknow", net);
    RowsRead(values);
    unknown := GetMissing(gee, "unknow", net);
    loaded := gee.loads;
  }
}
