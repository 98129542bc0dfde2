/**
 * The LRU cache of geecache/lru/lru.go. The doubly linked list is a sequence
 * of entries with the most recently used at index 0 and the oldest at the
 * back; the dictionary from keys to list elements is a map from keys to
 * values, which Valid keeps in step with the list. Values are ByteViews, the
 * only implementation of the Value interface in the cache. The OnEvicted
 * callback is modelled by whether one is set and a ghost log of the entries
 * it would be called with.
 */
module Lru {
  import opened ByteViews

  /** One list element: a key and its value (lru.go entry). */
  datatype Entry = Entry(key: string, value: ByteView)

  /** The bytes an entry is charged: len(key) + value.Len(). */
  function Size(e: Entry): nat {
    |e.key| + e.value.Len()
  }

  /** The bytes charged for a whole list. */
  function TotalSize(s: seq<Entry>): nat
    decreases |s|
  {
    if s == [] then 0 else TotalSize(s[..|s| - 1]) + Size(s[|s| - 1])
  }

  /** Some entry of s carries key. */
  predicate HasKey(s: seq<Entry>, key: string) {
    exists i :: 0 <= i < |s| && s[i].key == key
  }

  /** No key is listed twice. */
  predicate DistinctKeys(s: seq<Entry>) {
    forall i, j :: 0 <= i < j < |s| ==> s[i].key != s[j].key
  }

  /**
   * The map m and the list s describe the same cache: one list entry per key,
   * the map's keys are the listed keys, and each maps to its entry's value.
   */
  ghost predicate Mirrors(s: seq<Entry>, m: map<string, ByteView>) {
    && DistinctKeys(s)
    && (forall k :: k in m <==> HasKey(s, k))
    && ValuesAgree(s, m)
  }

  /** Each listed key is mapped to the value listed with it. */
  predicate ValuesAgree(s: seq<Entry>, m: map<string, ByteView>) {
    forall i :: 0 <= i < |s| ==> s[i].key in m && m[s[i].key] == s[i].value
  }

  /** The position of key in s, or |s| when no entry carries it. */
  function Find(s: seq<Entry>, key: string): (i: nat)
    ensures i <= |s|
    ensures i < |s| ==> s[i].key == key && forall j :: 0 <= j < i ==> s[j].key != key
    ensures i == |s| ==> !HasKey(s, key)
    decreases |s|
  {
    if s == [] then 0
    else if s[0].key == key then 0
    else
      var i := 1 + Find(s[1..], key);
      assert forall j :: 1 <= j < |s| ==> s[j] == s[1..][j - 1];
      i
  }

  /** The list after entry i is moved to the front (list.MoveToFront). */
  function MoveToFront(s: seq<Entry>, i: nat): seq<Entry>
    requires i < |s|
  {
    [s[i]] + s[..i] + s[i + 1..]
  }

  /**
   * The list after Add's first half: an existing entry for key is moved to
   * the front and given the new value; otherwise a new entry is pushed to
   * the front.
   */
  function Touch(s: seq<Entry>, key: string, value: ByteView): seq<Entry> {
    var i := Find(s, key);
    if i < |s| then [Entry(key, value)] + s[..i] + s[i + 1..]
    else [Entry(key, value)] + s
  }

  /** The bytes of a concatenation. */
  lemma {:induction false} TotalSizeAppend(a: seq<Entry>, b: seq<Entry>)
    ensures TotalSize(a + b) == TotalSize(a) + TotalSize(b)
    decreases |b|
  {
    if b == [] {
      assert a + b == a;
    } else {
      TotalSizeAppend(a, b[..|b| - 1]);
      assert (a + b)[..|a + b| - 1] == a + b[..|b| - 1];
    }
  }

  /** Where the entries of s end up when entry i is replaced by e at the front. */
  lemma {:induction false} FrontIndex(e: Entry, s: seq<Entry>, i: nat)
    requires i < |s|
    ensures var t := [e] + s[..i] + s[i + 1..];
            && |t| == |s| && t[0] == e
            && (forall j :: 0 <= j < i ==> t[j + 1] == s[j])
            && (forall j :: i < j < |s| ==> t[j] == s[j])
  {
    var t := [e] + s[..i] + s[i + 1..];
    forall j | 0 <= j < i ensures t[j + 1] == s[j] {
      assert t[j + 1] == s[..i][j];
    }
    forall j | i < j < |s| ensures t[j] == s[j] {
      assert t[j] == s[i + 1..][j - 1 - i];
    }
  }

  /** The entries of Touch(s, key, value) after the front one, by where they were in s. */
  lemma {:induction false} TouchIndex(s: seq<Entry>, key: string, value: ByteView)
    ensures var i, t := Find(s, key), Touch(s, key, value);
            && t[0] == Entry(key, value)
            && |t| == (if i < |s| then |s| else |s| + 1)
            && (forall j :: 0 <= j < i ==> t[j + 1] == s[j])
            && (forall j :: i < j < |s| ==> t[j] == s[j])
  {
    var i := Find(s, key);
    if i < |s| {
      FrontIndex(Entry(key, value), s, i);
    }
  }

  /** The keys listed after Touch: key itself and those listed before. */
  lemma {:induction false} HasKeyTouch(s: seq<Entry>, key: string, value: ByteView, k: string)
    ensures HasKey(Touch(s, key, value), k) <==> k == key || HasKey(s, k)
  {
    var i, t := Find(s, key), Touch(s, key, value);
    TouchIndex(s, key, value);
    if HasKey(s, k) {
      var j :| 0 <= j < |s| && s[j].key == k;
      if j < i { assert t[j + 1].key == k; } else if j > i { assert t[j].key == k; } else { assert t[0].key == k; }
    }
    if HasKey(t, k) && k != key {
      var j :| 0 <= j < |t| && t[j].key == k;
      assert j > 0;
      if j <= i { assert s[j - 1].key == k; } else { assert s[j].key == k; }
    }
  }

  /** Putting e in place of entry i at the front keeps the keys distinct when e takes entry i's key. */
  lemma {:induction false} DistinctFront(e: Entry, s: seq<Entry>, i: nat)
    requires DistinctKeys(s) && i < |s| && s[i].key == e.key
    ensures DistinctKeys([e] + s[..i] + s[i + 1..])
  {
    var t := [e] + s[..i] + s[i + 1..];
    FrontIndex(e, s, i);
    forall a, b | 0 <= a < b < |t| ensures t[a].key != t[b].key {
      var sb := if b <= i then b - 1 else b;
      var sa := if a == 0 then i else if a <= i then a - 1 else a;
      assert t[b] == s[sb] && t[a].key == s[sa].key && sa != sb;
    }
  }

  /** Pushing e onto the front keeps the keys distinct when its key is not listed. */
  lemma {:induction false} DistinctCons(e: Entry, s: seq<Entry>)
    requires DistinctKeys(s) && !HasKey(s, e.key)
    ensures DistinctKeys([e] + s)
  {
    var t := [e] + s;
    forall a, b | 0 <= a < b < |t| ensures t[a].key != t[b].key {
      assert t[b] == s[b - 1];
      if a > 0 {
        assert t[a] == s[a - 1];
      }
    }
  }

  /** Touch keeps the keys distinct. */
  lemma {:induction false} DistinctTouch(s: seq<Entry>, key: string, value: ByteView)
    requires DistinctKeys(s)
    ensures DistinctKeys(Touch(s, key, value))
  {
    var i := Find(s, key);
    if i < |s| {
      DistinctFront(Entry(key, value), s, i);
    } else {
      DistinctCons(Entry(key, value), s);
    }
  }

  /** Touch keeps the list and the map in step; the list grows exactly when the key was new. */
  lemma {:induction false} MirrorsTouch(s: seq<Entry>, m: map<string, ByteView>, key: string, value: ByteView)
    requires Mirrors(s, m)
    ensures Mirrors(Touch(s, key, value), m[key := value])
    ensures |Touch(s, key, value)| == if key in m then |s| else |s| + 1
  {
    var i, t := Find(s, key), Touch(s, key, value);
    TouchIndex(s, key, value);
    DistinctTouch(s, key, value);
    forall k ensures k in m[key := value] <==> HasKey(t, k) {
      HasKeyTouch(s, key, value, k);
    }
    ValuesTouch(s, m, key, value);
  }

  /** Touch keeps every listed key mapped to its listed value. */
  lemma {:induction false} ValuesTouch(s: seq<Entry>, m: map<string, ByteView>, key: string, value: ByteView)
    requires DistinctKeys(s) && ValuesAgree(s, m)
    ensures ValuesAgree(Touch(s, key, value), m[key := value])
  {
    var i, t := Find(s, key), Touch(s, key, value);
    TouchIndex(s, key, value);
    forall j | 0 <= j < |t| ensures t[j].key in m[key := value] && m[key := value][t[j].key] == t[j].value {
      if j > 0 {
        var sj := if j <= i then j - 1 else j;
        assert t[j] == s[sj];
        assert sj != i;
      }
    }
  }

  /** Touching a listed key with its own value is MoveToFront of its entry. */
  lemma {:induction false} TouchIsMove(s: seq<Entry>, m: map<string, ByteView>, key: string)
    requires Mirrors(s, m) && key in m
    ensures Find(s, key) < |s| && s[Find(s, key)].value == m[key]
    ensures Touch(s, key, m[key]) == MoveToFront(s, Find(s, key)) && m[key := m[key]] == m
  {
    assert HasKey(s, key);
  }

  /** Removing the back entry removes its key, and only its key, from the map. */
  lemma {:induction false} MirrorsDropLast(s: seq<Entry>, m: map<string, ByteView>)
    requires Mirrors(s, m) && s != []
    ensures Mirrors(s[..|s| - 1], m - {s[|s| - 1].key})
  {
    var init, last := s[..|s| - 1], s[|s| - 1];
    assert forall j :: 0 <= j < |init| ==> init[j] == s[j];
    forall k ensures k in m - {last.key} <==> HasKey(init, k) {
      if HasKey(s, k) && k != last.key {
        var j :| 0 <= j < |s| && s[j].key == k;
        assert j < |init| && init[j].key == k;
      }
    }
  }

  /** With distinct keys there are as many map entries as list entries (lru.go Len). */
  lemma {:induction false} MirrorsSize(s: seq<Entry>, m: map<string, ByteView>)
    requires Mirrors(s, m)
    ensures |m| == |s|
    decreases |s|
  {
    if s == [] {
      assert forall k :: k in m ==> HasKey(s, k);
      assert m.Keys == {};
    } else {
      var k := s[|s| - 1].key;
      MirrorsDropLast(s, m);
      MirrorsSize(s[..|s| - 1], m - {k});
      assert k in m;
      assert (m - {k}).Keys == m.Keys - {k};
    }
  }

  /** Pushing an entry onto the front adds its size. */
  lemma {:induction false} TotalSizeCons(e: Entry, s: seq<Entry>)
    ensures TotalSize([e] + s) == Size(e) + TotalSize(s)
  {
    TotalSizeAppend([e], s);
    assert [e][..0] == [];
  }

  /** Replacing entry i by e at the front changes the bytes by their difference in size. */
  lemma {:induction false} TotalSizeReplace(e: Entry, s: seq<Entry>, i: nat)
    requires i < |s|
    ensures TotalSize([e] + s[..i] + s[i + 1..]) == TotalSize(s) - Size(s[i]) + Size(e)
  {
    var a, b := s[..i], s[i + 1..];
    assert [e] + a + b == [e] + (a + b);
    var c := s[i..];
    assert s == a + c;
    assert c == [s[i]] + b;
    TotalSizeCons(e, a + b);
    TotalSizeAppend(a, b);
    TotalSizeAppend(a, c);
    TotalSizeCons(s[i], b);
  }

  /** The bytes charged for the list after a touch. */
  lemma {:induction false} TouchSize(s: seq<Entry>, m: map<string, ByteView>, key: string, value: ByteView)
    requires Mirrors(s, m)
    ensures key in m ==> TotalSize(Touch(s, key, value)) == TotalSize(s) - m[key].Len() + value.Len()
    ensures key !in m ==> TotalSize(Touch(s, key, value)) == TotalSize(s) + |key| + value.Len()
  {
    var e, i := Entry(key, value), Find(s, key);
    if i < |s| {
      assert HasKey(s, key) && m[key] == s[i].value;
      TotalSizeReplace(e, s, i);
    } else {
      TotalSizeCons(e, s);
    }
  }

  /**
   * nBytes after the first half of Add. An update adds the old length and
   * subtracts the new one (the reverse of the accounting an insert uses);
   * an insert adds len(key) + value.Len().
   */
  function Charge(nBytes: int, cache: map<string, ByteView>, key: string, value: ByteView): int {
    if key in cache then nBytes + cache[key].Len() - value.Len()
    else nBytes + |key| + value.Len()
  }

  /**
   * How many entries, counted from the front, survive the eviction loop of
   * Add when it starts on list s with byte count n: while maxBytes is non-zero
   * and below the byte count, the back entry goes and its size is subtracted.
   */
  function Kept(s: seq<Entry>, n: int, maxBytes: int): (k: nat)
    ensures k <= |s|
  {
    KeptOf(s, |s|, n, maxBytes)
  }

  /** Kept for the list made of the first j entries of s. */
  function KeptOf(s: seq<Entry>, j: nat, n: int, maxBytes: int): (k: nat)
    requires j <= |s|
    ensures k <= j
    decreases j
  {
    if maxBytes == 0 || n <= maxBytes || j == 0 then j
    else KeptOf(s, j - 1, n - Size(s[j - 1]), maxBytes)
  }

  /**
   * The eviction loop started on list s with byte count n stops: once the
   * list is empty nothing more can be subtracted, so the byte count that
   * would remain then, n - TotalSize(s), must be within the budget.
   */
  predicate Terminates(s: seq<Entry>, n: int, maxBytes: int) {
    maxBytes == 0 || n - TotalSize(s) <= maxBytes
  }

  /** The entries of s in reverse order: the order in which evictions report them. */
  function Backwards(s: seq<Entry>): seq<Entry>
    decreases |s|
  {
    if s == [] then [] else Backwards(s[1..]) + [s[0]]
  }

  /**
   * Inserting a new key into an accounted cache with a non-negative budget
   * lets the eviction loop stop.
   */
  lemma {:induction false} InsertTerminates(s: seq<Entry>, m: map<string, ByteView>, nBytes: int, key: string, value: ByteView, maxBytes: int)
    requires Mirrors(s, m) && key !in m && nBytes == TotalSize(s) && maxBytes >= 0
    ensures Terminates(Touch(s, key, value), Charge(nBytes, m, key, value), maxBytes)
    ensures Charge(nBytes, m, key, value) == TotalSize(Touch(s, key, value))
  {
    InsertAccounting(s, m, nBytes, key, value);
  }

  /**
   * The update branch of Add as written (lru.go line 83): the difference
   * between nBytes and the bytes actually listed moves by twice the old
   * length minus the new one, so nBytes stays equal to the listed bytes
   * exactly when the new value has the old value's length.
   */
  lemma {:induction false} UpdateAccounting(s: seq<Entry>, m: map<string, ByteView>, nBytes: int, key: string, value: ByteView)
    requires Mirrors(s, m) && key in m
    ensures Charge(nBytes, m, key, value) - TotalSize(Touch(s, key, value))
         == nBytes - TotalSize(s) + 2 * (m[key].Len() - value.Len())
    ensures nBytes == TotalSize(s) ==>
      (Charge(nBytes, m, key, value) == TotalSize(Touch(s, key, value)) <==> m[key].Len() == value.Len())
  {
    TouchSize(s, m, key, value);
  }

  /** The insert branch of Add keeps nBytes's relation to the listed bytes. */
  lemma {:induction false} InsertAccounting(s: seq<Entry>, m: map<string, ByteView>, nBytes: int, key: string, value: ByteView)
    requires Mirrors(s, m) && key !in m
    ensures Charge(nBytes, m, key, value) - TotalSize(Touch(s, key, value)) == nBytes - TotalSize(s)
  {
    TouchSize(s, m, key, value);
  }

  /**
   * An update that lengthens a value makes nBytes undercount at once: one
   * entry of 2 bytes updated to 3 bytes leaves nBytes at 1.
   */
  lemma {:induction false} UpdateDriftExample()
    ensures var s := [Entry("k", ByteView([1]))];
            var t := Touch(s, "k", ByteView([1, 2]));
            TotalSize(s) == 2 && Charge(2, map["k" := ByteView([1])], "k", ByteView([1, 2])) == 1 && TotalSize(t) == 3
  {
    var s := [Entry("k", ByteView([1]))];
    assert Find(s, "k") == 0;
    TotalSizeCons(s[0], []);
    var t := Touch(s, "k", ByteView([1, 2]));
    assert t == [Entry("k", ByteView([1, 2]))] + [];
    TotalSizeCons(t[0], []);
  }

  /**
   * When the loop stops, the byte count left after evicting all but the
   * first Kept entries is within the budget, and every eviction was needed:
   * before each of them the count was still above the budget. A zero budget
   * evicts nothing.
   */
  lemma {:induction false} KeptSpec(s: seq<Entry>, n: int, maxBytes: int)
    requires Terminates(s, n, maxBytes)
    ensures maxBytes == 0 ==> Kept(s, n, maxBytes) == |s|
    ensures maxBytes == 0 || n - TotalSize(s[Kept(s, n, maxBytes)..]) <= maxBytes
    ensures forall j :: Kept(s, n, maxBytes) < j <= |s| ==> maxBytes < n - TotalSize(s[j..])
  {
    assert s[..|s|] == s;
    KeptOfSpec(s, |s|, n, maxBytes);
    forall j | 0 <= j <= |s|
      ensures s[j..|s|] == s[j..]
    {
    }
  }

  /** KeptSpec for the first j entries of s. */
  lemma {:induction false} KeptOfSpec(s: seq<Entry>, j: nat, n: int, maxBytes: int)
    requires j <= |s| && Terminates(s[..j], n, maxBytes)
    ensures maxBytes == 0 ==> KeptOf(s, j, n, maxBytes) == j
    ensures maxBytes == 0 || n - TotalSize(s[KeptOf(s, j, n, maxBytes)..j]) <= maxBytes
    ensures forall i :: KeptOf(s, j, n, maxBytes) < i <= j ==> maxBytes < n - TotalSize(s[i..j])
    decreases j
  {
    if maxBytes == 0 || n <= maxBytes || j == 0 {
      assert s[j..j] == [];
    } else {
      var m := n - Size(s[j - 1]);
      assert s[..j][..j - 1] == s[..j - 1];
      KeptOfSpec(s, j - 1, m, maxBytes);
      var k := KeptOf(s, j - 1, m, maxBytes);
      forall i | k <= i < j
        ensures TotalSize(s[i..j]) == TotalSize(s[i..j - 1]) + Size(s[j - 1])
      {
        RangeSnoc(s, i, j);
      }
      assert s[j..j] == [];
    }
  }

  /** The bytes of the range s[i..j], split off its last entry. */
  lemma {:induction false} RangeSnoc(s: seq<Entry>, i: nat, j: nat)
    requires i < j <= |s|
    ensures TotalSize(s[i..j]) == TotalSize(s[i..j - 1]) + Size(s[j - 1])
  {
    var x := s[i..j];
    assert x[..|x| - 1] == s[i..j - 1];
  }

  /**
   * When Terminates fails the loop never stops: its guard holds after every
   * number of evictions, including after the list has become empty, where
   * Removeoldest does nothing.
   */
  lemma {:induction false} EvictionSpins(s: seq<Entry>, n: int, maxBytes: int)
    requires !Terminates(s, n, maxBytes)
    ensures maxBytes != 0
    ensures forall j :: 0 <= j <= |s| ==> maxBytes < n - TotalSize(s[j..])
  {
    forall j | 0 <= j <= |s|
      ensures maxBytes < n - TotalSize(s[j..])
    {
      assert s == s[..j] + s[j..];
      TotalSizeAppend(s[..j], s[j..]);
    }
  }

  /** The eviction loop may remove the entry Add has just inserted. */
  lemma {:induction false} EvictsNewEntry()
    ensures Kept([Entry("ab", ByteView([]))], 2, 1) == 0
  {
    assert [Entry("ab", ByteView([]))][..0] == [];
  }

  /** One more eviction reported at the back of the log. */
  lemma {:induction false} BackwardsStep(s: seq<Entry>, j: nat)
    requires 0 < j <= |s|
    ensures Backwards(s[j - 1..]) == Backwards(s[j..]) + [s[j - 1]]
  {
    assert s[j - 1..][1..] == s[j..];
  }

  /**
   * After Add(key, value) the key is listed exactly when the eviction loop
   * kept at least one entry, and then it is the front entry with the new
   * value: being at the front, the new entry is evicted last.
   */
  lemma {:induction false} AddThenLookup(s: seq<Entry>, key: string, value: ByteView, n: int, maxBytes: int)
    requires DistinctKeys(s)
    ensures var t := Touch(s, key, value);
            var k := Kept(t, n, maxBytes);
            && (HasKey(t[..k], key) <==> k > 0)
            && (k > 0 ==> t[..k][0] == Entry(key, value))
  {
    var t := Touch(s, key, value);
    var k := Kept(t, n, maxBytes);
    TouchIndex(s, key, value);
    if k > 0 {
      assert t[..k][0].key == key;
    }
  }

  /** The keys listed in s. */
  function KeySet(s: seq<Entry>): set<string> {
    set i | 0 <= i < |s| :: s[i].key
  }

  /** The keys of the suffix from j - 1 on: its first key and those after it. */
  lemma {:induction false} KeySetStep(s: seq<Entry>, j: nat)
    requires 0 < j <= |s|
    ensures KeySet(s[j - 1..]) == {s[j - 1].key} + KeySet(s[j..])
  {
    var a, b := s[j - 1..], s[j..];
    assert forall i :: 0 < i < |a| ==> a[i] == b[i - 1];
    assert forall i :: 0 <= i < |b| ==> b[i] == a[i + 1];
  }

  /**
   * Cutting the list after its first j entries and unmapping the keys cut
   * off keeps the list and the map in agreement.
   */
  lemma {:induction false} MirrorsPrefix(s: seq<Entry>, m: map<string, ByteView>, j: nat)
    requires Mirrors(s, m) && j <= |s|
    ensures Mirrors(s[..j], m - KeySet(s[j..]))
  {
    var p, q := s[..j], s[j..];
    assert forall i :: 0 <= i < |p| ==> p[i] == s[i];
    UnlistedAfter(s, j);
    forall k ensures k in m - KeySet(q) <==> HasKey(p, k) {
      KeptKey(s, m, j, k);
    }
  }

  /** A key listed in the first j entries of s is not listed after them. */
  lemma {:induction false} UnlistedAfter(s: seq<Entry>, j: nat)
    requires DistinctKeys(s) && j <= |s|
    ensures forall i :: 0 <= i < j ==> s[i].key !in KeySet(s[j..])
  {
    var q := s[j..];
    forall i | 0 <= i < j ensures s[i].key !in KeySet(q) {
      assert forall i2 :: 0 <= i2 < |q| ==> q[i2] == s[j + i2];
    }
  }

  /** After the cut at j, key k stays mapped exactly when it is listed before j. */
  lemma {:induction false} KeptKey(s: seq<Entry>, m: map<string, ByteView>, j: nat, k: string)
    requires Mirrors(s, m) && j <= |s|
    ensures k in m - KeySet(s[j..]) <==> HasKey(s[..j], k)
  {
    var p, q := s[..j], s[j..];
    if HasKey(p, k) {
      var i :| 0 <= i < |p| && p[i].key == k;
      assert s[i] == p[i];
      UnlistedAfter(s, j);
    }
    if k in m - KeySet(q) {
      var i :| 0 <= i < |s| && s[i].key == k;
      assert forall i2 :: j <= i2 < |s| ==> s[i2].key != k by {
        forall i2 | j <= i2 < |s| ensures s[i2].key != k {
          assert q[i2 - j] == s[i2];
        }
      }
      assert p[i].key == k;
    }
  }

  /** One pass of the eviction loop, as KeptOf counts it. */
  lemma {:induction false} KeptStep(s: seq<Entry>, j: nat, n: int, maxBytes: int)
    requires 0 < j <= |s| && maxBytes != 0 && maxBytes < n
    ensures KeptOf(s, j, n, maxBytes) == KeptOf(s, j - 1, n - Size(s[j - 1]), maxBytes)
  {
  }

  /**
   * One pass of the eviction loop, when it has cut the list it started on,
   * s, to its first j entries and unmapped the keys of the rest from c.
   */
  lemma {:induction false} EvictStep(s: seq<Entry>, c: map<string, ByteView>, j: nat)
    requires 0 < j <= |s|
    ensures s[..j][..j - 1] == s[..j - 1] && s[..j][j - 1] == s[j - 1]
    ensures c - KeySet(s[j..]) - {s[j - 1].key} == c - KeySet(s[j - 1..])
    ensures Backwards(s[j - 1..]) == Backwards(s[j..]) + [s[j - 1]]
  {
    assert s[..j][..j - 1] == s[..j - 1];
    KeySetStep(s, j);
    BackwardsStep(s, j);
  }

  /** The eviction loop before its first pass: nothing is cut off yet. */
  lemma {:induction false} EvictStart(s: seq<Entry>, c: map<string, ByteView>)
    ensures s[..|s|] == s && s[|s|..] == []
    ensures c - KeySet(s[|s|..]) == c && Backwards(s[|s|..]) == []
  {
    assert s[|s|..] == [];
    assert KeySet(s[|s|..]) == {};
  }

  /** The bytes of s, split at k. */
  lemma {:induction false} TotalSizeSplit(s: seq<Entry>, k: nat)
    requires k <= |s|
    ensures TotalSize(s) == TotalSize(s[..k]) + TotalSize(s[k..])
  {
    assert s[..k] + s[k..] == s;
    TotalSizeAppend(s[..k], s[k..]);
  }

  /** Within the budget (or with none) the eviction loop does not run: every entry stays. */
  lemma {:induction false} NothingEvicted(s: seq<Entry>, n: int, maxBytes: int)
    requires maxBytes == 0 || n <= maxBytes
    ensures Kept(s, n, maxBytes) == |s|
    ensures s[..|s|] == s && KeySet(s[|s|..]) == {} && TotalSize(s[|s|..]) == 0
  {
    assert s[..|s|] == s;
    assert s[|s|..] == [];
  }

  /** Only a non-empty list holds bytes. */
  lemma {:induction false} NonEmptyList(s: seq<Entry>)
    requires TotalSize(s) > 0
    ensures |s| > 0
  {
  }

  /** The LRU cache (lru.go Cache). */
  class Cache {
    const maxBytes: int
    var nBytes: int
    var ll: seq<Entry>
    var cache: map<string, ByteView>
    const hasOnEvicted: bool
    /** The pairs handed to OnEvicted so far, oldest first. */
    ghost var evicted: seq<Entry>

    /** One list element per key, and the map agrees with the list. */
    ghost predicate Valid()
      reads this
    {
      Mirrors(ll, cache)
    }

    /** nBytes is the sum of the entries' sizes. */
    ghost predicate Accounted()
      reads this
    {
      nBytes == TotalSize(ll)
    }

    /** The eviction loop of Add(key, value) stops. */
    ghost predicate AddTerminates(key: string, value: ByteView)
      reads this
    {
      Terminates(Touch(ll, key, value), Charge(nBytes, cache, key, value), maxBytes)
    }

    /** An empty cache with the given budget and callback (lru.go New). */
    constructor (maxBytes: int, hasOnEvicted: bool)
      ensures Valid() && Accounted()
      ensures this.maxBytes == maxBytes && this.hasOnEvicted == hasOnEvicted
      ensures nBytes == 0 && ll == [] && cache == map[] && evicted == []
    {
      this.maxBytes := maxBytes;
      this.hasOnEvicted := hasOnEvicted;
      nBytes := 0;
      ll := [];
      cache := map[];
      evicted := [];
    }

    /**
     * Looks key up (lru.go Get). A hit moves its entry to the front, the
     * others keeping their order, and returns its value; a miss returns the
     * zero value and changes nothing.
     */
    method Get(key: string) returns (value: ByteView, ok: bool)
      requires Valid()
      modifies this
      ensures Valid()
      ensures ok == (key in old(cache))
      ensures ok ==> var i := Find(old(ll), key);
                     i < |old(ll)| && value == old(ll)[i].value && ll == MoveToFront(old(ll), i)
      ensures !ok ==> value == ByteView([]) && ll == old(ll)
      ensures cache == old(cache) && nBytes == old(nBytes) && evicted == old(evicted)
    {
      if key in cache {
        value, ok := cache[key], true;
        TouchIsMove(ll, cache, key);
        MirrorsTouch(ll, cache, key, value);
        ll := Touch(ll, key, value);
      } else {
        value, ok := ByteView([]), false;
      }
    }

    /**
     * Evicts the back entry (lru.go Removeoldest): takes it off the list and
     * its key out of the map, subtracts its size and reports it if a
     * callback is set. On an empty cache it does nothing.
     */
    method Removeoldest()
      requires Valid()
      modifies this
      ensures Valid()
      ensures old(ll) == [] ==> ll == [] && nBytes == old(nBytes) && evicted == old(evicted)
      ensures old(ll) != [] ==>
        var last := old(ll)[|old(ll)| - 1];
        && ll == old(ll)[..|old(ll)| - 1]
        && cache == old(cache) - {last.key}
        && nBytes == old(nBytes) - Size(last)
        && evicted == old(evicted) + (if hasOnEvicted then [last] else [])
      ensures nBytes - TotalSize(ll) == old(nBytes) - TotalSize(old(ll))
    {
      if ll != [] {
        MirrorsDropLast(ll, cache);
        DropBack();
      }
    }

    /** The state change of Removeoldest on a non-empty cache. */
    method DropBack()
      requires ll != []
      modifies this
      ensures ll == old(ll)[..|old(ll)| - 1]
      ensures cache == old(cache) - {old(ll)[|old(ll)| - 1].key}
      ensures nBytes == old(nBytes) - Size(old(ll)[|old(ll)| - 1])
      ensures evicted == old(evicted) + (if hasOnEvicted then [old(ll)[|old(ll)| - 1]] else [])
    {
      var last := ll[|ll| - 1];
      ll := ll[..|ll| - 1];
      cache := cache - {last.key};
      nBytes := nBytes - (|last.key| + last.value.Len());
      if hasOnEvicted {
        evicted := evicted + [last];
      }
    }

    /**
     * Inserts or updates key (lru.go Add), then evicts from the back while
     * maxBytes is non-zero and below nBytes. The update branch keeps the
     * source's accounting: it adds the old length and subtracts the new one.
     * AddTerminates is exactly what the eviction loop needs to stop
     * (EvictionSpins shows the other case).
     */
    method Add(key: string, value: ByteView)
      requires Valid() && AddTerminates(key, value)
      modifies this
      ensures Valid()
      ensures var s := Touch(old(ll), key, value);
              var n := Charge(old(nBytes), old(cache), key, value);
              var k := Kept(s, n, maxBytes);
              && ll == s[..k]
              && cache == old(cache)[key := value] - KeySet(s[k..])
              && nBytes == n - TotalSize(s[k..])
              && evicted == old(evicted) + (if hasOnEvicted then Backwards(s[k..]) else [])
      ensures maxBytes == 0 || nBytes <= maxBytes
      ensures nBytes - TotalSize(ll) == Charge(old(nBytes), old(cache), key, value) - TotalSize(Touch(old(ll), key, value))
    {
      Store(key, value);
      ghost var s, c := ll, cache;
      Evict();
      MirrorsPrefix(s, c, Kept(s, old(Charge(nBytes, cache, key, value)), maxBytes));
    }

    /** The first half of Add: the entry goes to the front with its new value. */
    method Store(key: string, value: ByteView)
      requires Valid()
      modifies this
      ensures Valid()
      ensures ll == Touch(old(ll), key, value) && cache == old(cache)[key := value]
      ensures nBytes == Charge(old(nBytes), old(cache), key, value)
      ensures evicted == old(evicted)
    {
      MirrorsTouch(ll, cache, key, value);
      if key in cache {
        nBytes := nBytes + cache[key].Len() - value.Len();
      } else {
        nBytes := nBytes + |key| + value.Len();
      }
      ll := Touch(ll, key, value);
      cache := cache[key := value];
    }

    /**
     * The eviction loop of Add. It keeps the first Kept entries; the map
     * loses the keys of the others.
     */
    method Evict()
      requires Terminates(ll, nBytes, maxBytes)
      modifies this
      ensures var k := Kept(old(ll), old(nBytes), maxBytes);
              && ll == old(ll)[..k]
              && cache == old(cache) - KeySet(old(ll)[k..])
              && nBytes == old(nBytes) - TotalSize(old(ll)[k..])
              && evicted == old(evicted) + (if hasOnEvicted then Backwards(old(ll)[k..]) else [])
      ensures maxBytes == 0 || nBytes <= maxBytes
      ensures nBytes - TotalSize(ll) == old(nBytes) - TotalSize(old(ll))
    {
      ghost var s, c, n, e0 := ll, cache, nBytes, evicted;
      ghost var k := Kept(s, n, maxBytes);
      ghost var j: nat := |s|;
      EvictStart(s, c);
      while maxBytes != 0 && maxBytes < nBytes
        invariant EvictedTo(s, c, n, e0, k, j)
        decreases j
      {
        EvictOne(s, c, n, e0, k, j);
        j := j - 1;
      }
      assert j == k;
      TotalSizeSplit(s, k);
    }

    /**
     * The state of the eviction loop once it has cut list s, with byte count
     * n, map c and log e0 when it started, to its first j entries; k is the
     * number of entries it will keep.
     */
    ghost predicate EvictedTo(s: seq<Entry>, c: map<string, ByteView>, n: int, e0: seq<Entry>, k: nat, j: nat)
      reads this
    {
      && j <= |s| && ll == s[..j]
      && cache == c - KeySet(s[j..])
      && nBytes - TotalSize(ll) == n - TotalSize(s)
      && KeptOf(s, j, nBytes, maxBytes) == k
      && (hasOnEvicted ==> evicted == e0 + Backwards(s[j..]))
      && (!hasOnEvicted ==> evicted == e0)
    }

    /** One pass of the eviction loop: Removeoldest on a cache over budget. */
    method EvictOne(ghost s: seq<Entry>, ghost c: map<string, ByteView>, ghost n: int, ghost e0: seq<Entry>, ghost k: nat, ghost j: nat)
      requires EvictedTo(s, c, n, e0, k, j) && Terminates(s, n, maxBytes)
      requires maxBytes != 0 && maxBytes < nBytes
      modifies this
      ensures j > 0 && EvictedTo(s, c, n, e0, k, j - 1)
    {
      NonEmptyList(ll);
      EvictStep(s, c, j);
      KeptStep(s, j, nBytes, maxBytes);
      DropBack();
    }

    /** The number of entries (lru.go Len), which is also the number of keys mapped. */
    function Len(): (n: nat)
      reads this
      requires Valid()
      ensures n == |cache|
    {
      MirrorsSize(ll, cache);
      |ll|
    }
  }
}
