/**
 * The consistent-hash ring of geecache/consistenthash/consistenthash.go.
 * Every real node (peer) gets `replicas` virtual nodes on a ring of 32-bit
 * hashes; a key belongs to the peer of the first virtual node at or after
 * the key's hash, wrapping round to the smallest. The hash function is a
 * parameter (crc32.ChecksumIEEE, the default, is not part of this model), and
 * a string stands for its bytes, one character per byte.
 */
module ConsistentHash {
  import opened Wrappers
  import MergeSort

  /** Go's uint32. */
  newtype uint32 = x: int | 0 <= x < 0x1_0000_0000

  /** consistenthash.go Hash: bytes to a 32-bit hash. */
  type Hash = string -> uint32

  /** The character of decimal digit d. */
  function Digit(d: nat): (c: char)
    requires d < 10
    ensures '0' <= c <= '9' && (c as int) - ('0' as int) == d
  {
    (('0' as int) + d) as char
  }

  /** Every character is a decimal digit. */
  predicate IsDecimal(s: string) {
    forall i :: 0 <= i < |s| ==> '0' <= s[i] <= '9'
  }

  /** strconv.Itoa for the replica numbers 0, 1, 2, ...: decimal, no leading zero. */
  function Itoa(i: nat): (s: string)
    ensures |s| >= 1 && IsDecimal(s)
    ensures s[0] == '0' ==> i == 0
    ensures i < 10 ==> s == [Digit(i)]
    decreases i
  {
    if i < 10 then [Digit(i)] else Itoa(i / 10) + [Digit(i % 10)]
  }

  /** The number a string of decimal digits denotes. */
  function DecimalValue(s: string): nat
    requires IsDecimal(s)
    decreases |s|
  {
    if s == [] then 0
    else DecimalValue(s[..|s| - 1]) * 10 + ((s[|s| - 1] as int) - ('0' as int))
  }

  /** Reading Itoa(i) back as a decimal number gives i. */
  lemma {:induction false} DecimalItoa(i: nat)
    ensures DecimalValue(Itoa(i)) == i
    decreases i
  {
    if i >= 10 {
      DecimalItoa(i / 10);
      var s := Itoa(i);
      assert s[..|s| - 1] == Itoa(i / 10);
    }
  }

  /** One virtual node: its hash on the ring and the peer it stands for. */
  datatype VNode = VNode(hash: int, peer: string)

  /** The number of virtual nodes a peer gets: Go's loop runs no times for a negative count. */
  function Replicas(replicas: int): nat {
    if replicas < 0 then 0 else replicas
  }

  /** The virtual nodes 0 .. n-1 of peer p, in the order Add creates them. */
  function PeerVNodes(hash: Hash, p: string, n: nat): (vs: seq<VNode>)
    ensures |vs| == n
    decreases n
  {
    if n == 0 then [] else PeerVNodes(hash, p, n - 1) + [VNode(hash(Itoa(n - 1) + p) as int, p)]
  }

  /** Virtual node i of peer p hashes Itoa(i) + p and stands for p. */
  lemma {:induction false} PeerVNodeAt(hash: Hash, p: string, n: nat, i: nat)
    requires i < n
    ensures PeerVNodes(hash, p, n)[i] == VNode(hash(Itoa(i) + p) as int, p)
    decreases n
  {
    if i < n - 1 {
      PeerVNodeAt(hash, p, n - 1, i);
    }
  }

  /** The virtual nodes of peers, peer by peer, in the order Add creates them. */
  function VNodes(hash: Hash, replicas: int, peers: seq<string>): seq<VNode>
    decreases |peers|
  {
    if peers == [] then []
    else VNodes(hash, replicas, peers[..|peers| - 1]) + PeerVNodes(hash, peers[|peers| - 1], Replicas(replicas))
  }

  /** Each peer gets replicas virtual nodes (none for a negative count). */
  lemma {:induction false} VNodesLength(hash: Hash, replicas: int, peers: seq<string>)
    ensures |VNodes(hash, replicas, peers)| == |peers| * Replicas(replicas)
    decreases |peers|
  {
    if peers != [] {
      VNodesLength(hash, replicas, peers[..|peers| - 1]);
      assert |peers| * Replicas(replicas) == (|peers| - 1) * Replicas(replicas) + Replicas(replicas);
    }
  }

  /** The ring hashes of some virtual nodes, in the same order. */
  function Hashes(vs: seq<VNode>): (hs: seq<int>)
    ensures |hs| == |vs|
    decreases |vs|
  {
    if vs == [] then [] else Hashes(vs[..|vs| - 1]) + [vs[|vs| - 1].hash]
  }

  /** Entry i of Hashes(vs) is the hash of virtual node i. */
  lemma {:induction false} HashAt(vs: seq<VNode>, i: nat)
    requires i < |vs|
    ensures Hashes(vs)[i] == vs[i].hash
    decreases |vs|
  {
    if i < |vs| - 1 {
      HashAt(vs[..|vs| - 1], i);
    }
  }

  /** hashMap after the assignments hashMap[v.hash] = v.peer for vs in order. */
  function Write(m: map<int, string>, vs: seq<VNode>): map<int, string>
    decreases |vs|
  {
    if vs == [] then m
    else Write(m, vs[..|vs| - 1])[vs[|vs| - 1].hash := vs[|vs| - 1].peer]
  }

  /** The virtual nodes of a concatenation of peer lists. */
  lemma {:induction false} VNodesAppend(hash: Hash, replicas: int, a: seq<string>, b: seq<string>)
    ensures VNodes(hash, replicas, a + b) == VNodes(hash, replicas, a) + VNodes(hash, replicas, b)
    decreases |b|
  {
    if b == [] {
      assert a + b == a;
    } else {
      var ab := a + b;
      var b' := b[..|b| - 1];
      var last := PeerVNodes(hash, b[|b| - 1], Replicas(replicas));
      assert ab[..|ab| - 1] == a + b' && ab[|ab| - 1] == b[|b| - 1];
      assert VNodes(hash, replicas, ab) == VNodes(hash, replicas, a + b') + last;
      assert VNodes(hash, replicas, b) == VNodes(hash, replicas, b') + last;
      VNodesAppend(hash, replicas, a, b');
      assert VNodes(hash, replicas, a) + (VNodes(hash, replicas, b') + last)
          == (VNodes(hash, replicas, a) + VNodes(hash, replicas, b')) + last;
    }
  }

  /** The hashes of a concatenation. */
  lemma {:induction false} HashesAppend(a: seq<VNode>, b: seq<VNode>)
    ensures Hashes(a + b) == Hashes(a) + Hashes(b)
    decreases |b|
  {
    if b == [] {
      assert a + b == a;
    } else {
      var ab := a + b;
      var b' := b[..|b| - 1];
      assert ab[..|ab| - 1] == a + b' && ab[|ab| - 1] == b[|b| - 1];
      HashesAppend(a, b');
    }
  }

  /** Writing a and then b is writing a + b. */
  lemma {:induction false} WriteAppend(m: map<int, string>, a: seq<VNode>, b: seq<VNode>)
    ensures Write(Write(m, a), b) == Write(m, a + b)
    decreases |b|
  {
    if b == [] {
      assert a + b == a;
    } else {
      var ab := a + b;
      var b' := b[..|b| - 1];
      assert ab[..|ab| - 1] == a + b' && ab[|ab| - 1] == b[|b| - 1];
      WriteAppend(m, a, b');
    }
  }

  /**
   * The keys written are those of m and the hashes of vs; each maps to the
   * peer of the last virtual node with that hash (a later virtual node with
   * the same hash overwrites an earlier one), or keeps its value in m.
   */
  lemma {:induction false} WriteSpec(m: map<int, string>, vs: seq<VNode>)
    ensures forall h :: h in Write(m, vs) <==> h in m || h in Hashes(vs)
    ensures forall j :: 0 <= j < |vs| && (forall l :: j < l < |vs| ==> vs[l].hash != vs[j].hash) ==>
              vs[j].hash in Write(m, vs) && Write(m, vs)[vs[j].hash] == vs[j].peer
    ensures forall h :: h in m && h !in Hashes(vs) ==> h in Write(m, vs) && Write(m, vs)[h] == m[h]
    decreases |vs|
  {
    if vs != [] {
      var init, last := vs[..|vs| - 1], vs[|vs| - 1];
      WriteSpec(m, init);
      assert forall j :: 0 <= j < |init| ==> init[j] == vs[j];
      assert Hashes(vs) == Hashes(init) + [last.hash];
    }
  }

  /** Every value Write stores comes from m or names the peer of a virtual node. */
  lemma {:induction false} WriteValues(m: map<int, string>, vs: seq<VNode>, h: int)
    requires h in Write(m, vs)
    ensures (h in m && Write(m, vs)[h] == m[h]) || exists j :: 0 <= j < |vs| && Write(m, vs)[h] == vs[j].peer
    decreases |vs|
  {
    if vs != [] {
      var init, last := vs[..|vs| - 1], vs[|vs| - 1];
      if h != last.hash {
        WriteValues(m, init, h);
        assert forall j :: 0 <= j < |init| ==> init[j] == vs[j];
      }
    }
  }

  /** Every virtual node of peers stands for one of the peers. */
  lemma {:induction false} VNodesPeers(hash: Hash, replicas: int, peers: seq<string>)
    ensures forall j :: 0 <= j < |VNodes(hash, replicas, peers)| ==> VNodes(hash, replicas, peers)[j].peer in peers
    decreases |peers|
  {
    if peers != [] {
      var init := peers[..|peers| - 1];
      VNodesPeers(hash, replicas, init);
      var a, b := VNodes(hash, replicas, init), PeerVNodes(hash, peers[|peers| - 1], Replicas(replicas));
      assert forall j :: 0 <= j < |a| ==> a[j].peer in init;
      assert forall x :: x in init ==> x in peers;
      forall j | 0 <= j < |a + b| ensures (a + b)[j].peer in peers {
        if j >= |a| {
          assert (a + b)[j] == b[j - |a|];
          PeerVNodeAt(hash, peers[|peers| - 1], Replicas(replicas), j - |a|);
        }
      }
    }
  }

  /**
   * sort.Search(len(keys), func(i) { keys[i] >= h }), Go's binary search,
   * narrowed to the range [i, j): the first index whose key is at least h,
   * or j. On sorted keys every key before the result is below h and every
   * key from it on is at least h.
   */
  function SearchRange(keys: seq<int>, h: int, i: nat, j: nat): (r: nat)
    requires i <= j <= |keys|
    ensures i <= r <= j
    ensures MergeSort.Sorted(keys) && (forall l :: 0 <= l < i ==> keys[l] < h) && (forall l :: j <= l < |keys| ==> keys[l] >= h) ==>
              (forall l :: 0 <= l < r ==> keys[l] < h) && (forall l :: r <= l < |keys| ==> keys[l] >= h)
    decreases j - i
  {
    if i < j then
      var m := (i + j) / 2;
      if keys[m] >= h then SearchRange(keys, h, i, m) else SearchRange(keys, h, m + 1, j)
    else i
  }

  /** sort.Search over all of keys. */
  function Search(keys: seq<int>, h: int): (r: nat)
    ensures r <= |keys|
    ensures MergeSort.Sorted(keys) ==>
              (forall l :: 0 <= l < r ==> keys[l] < h) && (forall l :: r <= l < |keys| ==> keys[l] >= h)
  {
    SearchRange(keys, h, 0, |keys|)
  }

  /**
   * Index i holds the successor of h on the ring: the first key at least h,
   * or the first key of all when every key is below h.
   */
  predicate IsSuccessor(keys: seq<int>, h: int, i: int) {
    && 0 <= i < |keys|
    && ((keys[i] >= h && forall l :: 0 <= l < i ==> keys[l] < h)
        || (i == 0 && forall l :: 0 <= l < |keys| ==> keys[l] < h))
  }

  /** On a sorted non-empty ring every hash has exactly one successor index. */
  lemma {:induction false} SuccessorUnique(keys: seq<int>, h: int, i: int, i2: int)
    requires MergeSort.Sorted(keys) && IsSuccessor(keys, h, i) && IsSuccessor(keys, h, i2)
    ensures i == i2
  {
  }

  /**
   * On a sorted ring the successor of h is found by looking at neighbours:
   * index i when keys[i-1] < h <= keys[i], index 0 when h <= keys[0] or
   * when h is beyond the last key.
   */
  lemma {:induction false} SuccessorByNeighbours(keys: seq<int>, h: int, i: int)
    requires MergeSort.Sorted(keys) && 0 <= i < |keys|
    requires if i == 0 then h <= keys[0] || keys[|keys| - 1] < h else keys[i - 1] < h <= keys[i]
    ensures IsSuccessor(keys, h, i)
  {
  }

  /** Search followed by Get's wrap-round picks the successor on a sorted non-empty ring. */
  lemma {:induction false} SearchSuccessor(keys: seq<int>, h: int)
    requires MergeSort.Sorted(keys) && keys != []
    ensures IsSuccessor(keys, h, Search(keys, h) % |keys|)
  {
    WrapRound(Search(keys, h), |keys|);
  }

  /** Go's idx % len(keys) for a Search result: only len itself wraps round, to 0. */
  lemma {:induction false} WrapRound(idx: nat, n: nat)
    requires 0 < n && idx <= n
    ensures idx % n == (if idx == n then 0 else idx)
  {
  }

  /** The ring (consistenthash.go Map). */
  class Map {
    const hash: Hash
    const replicas: int
    var keys: seq<int>
    var hashMap: map<int, string>
    /** The peers added so far, in order. */
    ghost var added: seq<string>

    /**
     * keys is the sorted list of the virtual nodes' hashes, duplicates
     * included, and hashMap maps each of them to its peer, the last one
     * written winning.
     */
    ghost predicate Valid()
      reads this
    {
      && keys == Ring(hash, replicas, added)
      && hashMap == Write(map[], VNodes(hash, replicas, added))
    }

    /**
     * consistenthash.go New: an empty ring with the given replica count,
     * hashing with fn, or with the default hash when fn is nil.
     */
    constructor (replicas: int, fn: Option<Hash>, default: Hash)
      ensures Valid()
      ensures this.replicas == replicas && hash == (if fn.Some? then fn.value else default)
      ensures keys == [] && hashMap == map[] && added == []
    {
      this.replicas := replicas;
      var f: Hash := if fn.Some? then fn.value else default;
      hash := f;
      keys := [];
      hashMap := map[];
      added := [];
    }

    /**
     * consistenthash.go Add: for each peer and each i below replicas, the
     * hash of Itoa(i) + peer goes on the ring and into hashMap; then the
     * ring is sorted (sort.Ints, modelled by the merge sort's Sorting: both
     * give the one sorted permutation, SortedPermutationUnique).
     */
    method Add(peers: seq<string>)
      requires Valid()
      modifies this
      ensures Valid() && added == old(added) + peers
      ensures keys == MergeSort.Sorting(old(keys) + Hashes(VNodes(hash, replicas, peers)))
      ensures hashMap == Write(old(hashMap), VNodes(hash, replicas, peers))
    {
      ghost var k0, h0, a0 := keys, hashMap, added;
      var p := 0;
      assert peers[..0] == [];
      while p < |peers|
        invariant 0 <= p <= |peers| && added == a0
        invariant keys == k0 + Hashes(VNodes(hash, replicas, peers[..p]))
        invariant hashMap == Write(h0, VNodes(hash, replicas, peers[..p]))
      {
        NextPeer(hash, replicas, peers, p, k0, h0);
        AddPeer(peers[p]);
        p := p + 1;
      }
      assert peers[..p] == peers;
      AddSorted(hash, replicas, a0, peers, k0);
      WriteAppend(map[], VNodes(hash, replicas, a0), VNodes(hash, replicas, peers));
      VNodesAppend(hash, replicas, a0, peers);
      keys := MergeSort.Sorting(keys);
      added := added + peers;
    }

    /** The inner loop of Add: the replicas of one peer go on the ring and into hashMap. */
    method AddPeer(key: string)
      modifies this
      ensures keys == old(keys) + Hashes(PeerVNodes(hash, key, Replicas(replicas)))
      ensures hashMap == Write(old(hashMap), PeerVNodes(hash, key, Replicas(replicas)))
      ensures added == old(added)
    {
      var i := 0;
      while i < replicas
        invariant 0 <= i <= Replicas(replicas) && added == old(added)
        invariant keys == old(keys) + Hashes(PeerVNodes(hash, key, i))
        invariant hashMap == Write(old(hashMap), PeerVNodes(hash, key, i))
      {
        var h := hash(Itoa(i) + key) as int;
        AddStep(hash, key, i, old(keys), old(hashMap));
        keys := keys + [h];
        hashMap := hashMap[h := key];
        i := i + 1;
      }
      assert i == Replicas(replicas);
    }

    /**
     * consistenthash.go Get: "" on an empty ring; otherwise the peer hashMap
     * gives for the first ring hash at or after the key's hash, wrapping
     * round to index 0 (a hash missing from hashMap would give Go's "").
     */
    function Get(key: string): (p: string)
      reads this
      ensures keys == [] ==> p == ""
      ensures MergeSort.Sorted(keys) && keys != [] ==>
                exists i :: IsSuccessor(keys, hash(key) as int, i) && p == (if keys[i] in hashMap then hashMap[keys[i]] else "")
    {
      if |keys| == 0 then ""
      else
        var h := hash(key) as int;
        var idx := Search(keys, h);
        var i := idx % |keys|;
        var p := if keys[i] in hashMap then hashMap[keys[i]] else "";
        if MergeSort.Sorted(keys) then SearchSuccessor(keys, h); p else p
    }

    /**
     * The ring is empty exactly when no virtual node was added: no peers, or
     * a replica count of zero or less.
     */
    lemma {:induction false} EmptyRing()
      requires Valid()
      ensures keys == [] <==> |added| == 0 || replicas <= 0
    {
      RingShape(hash, replicas, added);
      if |added| > 0 && replicas > 0 {
        MulAtLeast(|added|, Replicas(replicas));
      }
    }

    /** keys is sorted ascending, and Get picks the owner of the key's one successor. */
    lemma {:induction false} GetSpec(key: string, i: int)
      requires Valid() && IsSuccessor(keys, hash(key) as int, i)
      ensures MergeSort.Sorted(keys)
      ensures keys[i] in hashMap && Get(key) == hashMap[keys[i]]
    {
      RingShape(hash, replicas, added);
      var i2 :| IsSuccessor(keys, hash(key) as int, i2) && Get(key) == (if keys[i2] in hashMap then hashMap[keys[i2]] else "");
      SuccessorUnique(keys, hash(key) as int, i, i2);
      RingOwned(hash, replicas, added, keys[i]);
    }

    /** On a non-empty ring Get always names an added peer. */
    lemma {:induction false} GetOwner(key: string)
      requires Valid() && keys != []
      ensures Get(key) in added
    {
      RingShape(hash, replicas, added);
      SearchSuccessor(keys, hash(key) as int);
      var i := Search(keys, hash(key) as int) % |keys|;
      GetSpec(key, i);
      RingOwned(hash, replicas, added, keys[i]);
    }
  }

  /** One pass of Add's inner loop: the next replica's hash is appended and written. */
  lemma {:induction false} AddStep(hash: Hash, key: string, i: nat, k0: seq<int>, m: map<int, string>)
    ensures var h := hash(Itoa(i) + key) as int;
            && k0 + Hashes(PeerVNodes(hash, key, i + 1)) == k0 + Hashes(PeerVNodes(hash, key, i)) + [h]
            && Write(m, PeerVNodes(hash, key, i + 1)) == Write(m, PeerVNodes(hash, key, i))[h := key]
  {
    var v := VNode(hash(Itoa(i) + key) as int, key);
    HashesAppend(PeerVNodes(hash, key, i), [v]);
    assert PeerVNodes(hash, key, i + 1)[..i] == PeerVNodes(hash, key, i);
  }

  /** Add's outer loop moves on to the next peer: its virtual nodes follow those before it. */
  lemma {:induction false} NextPeer(hash: Hash, replicas: int, peers: seq<string>, p: nat, k0: seq<int>, h0: map<int, string>)
    requires p < |peers|
    ensures var vs, ws := VNodes(hash, replicas, peers[..p]), PeerVNodes(hash, peers[p], Replicas(replicas));
            && k0 + Hashes(VNodes(hash, replicas, peers[..p + 1])) == k0 + Hashes(vs) + Hashes(ws)
            && Write(h0, VNodes(hash, replicas, peers[..p + 1])) == Write(Write(h0, vs), ws)
  {
    var vs, ws := VNodes(hash, replicas, peers[..p]), PeerVNodes(hash, peers[p], Replicas(replicas));
    assert peers[..p + 1][..p] == peers[..p];
    assert VNodes(hash, replicas, peers[..p + 1]) == vs + ws;
    HashesAppend(vs, ws);
    WriteAppend(h0, vs, ws);
  }

  /** Sorting the sorted old ring plus the new hashes sorts all the hashes. */
  lemma {:induction false} AddSorted(hash: Hash, replicas: int, a: seq<string>, b: seq<string>, k0: seq<int>)
    requires k0 == MergeSort.Sorting(Hashes(VNodes(hash, replicas, a)))
    ensures MergeSort.Sorting(k0 + Hashes(VNodes(hash, replicas, b))) == MergeSort.Sorting(Hashes(VNodes(hash, replicas, a + b)))
  {
    var ha, hb := Hashes(VNodes(hash, replicas, a)), Hashes(VNodes(hash, replicas, b));
    VNodesAppend(hash, replicas, a, b);
    HashesAppend(VNodes(hash, replicas, a), VNodes(hash, replicas, b));
    MergeSort.SortingPermutes(ha);
    MergeSort.SortingPermutes(k0 + hb);
    MergeSort.SortingPermutes(ha + hb);
    MergeSort.SortingSorted(k0 + hb);
    MergeSort.SortingSorted(ha + hb);
    MergeSort.SortedPermutationUnique(MergeSort.Sorting(k0 + hb), MergeSort.Sorting(ha + hb));
  }

  /** A positive multiple of b is at least b. */
  lemma {:induction false} MulAtLeast(a: nat, b: nat)
    requires a >= 1
    ensures a * b >= b
  {
    if a > 1 {
      MulAtLeast(a - 1, b);
      assert a * b == (a - 1) * b + b;
    }
  }

  /** The ring of a peer list: the sorted hashes of all its virtual nodes. */
  function Ring(hash: Hash, replicas: int, peers: seq<string>): seq<int> {
    MergeSort.Sorting(Hashes(VNodes(hash, replicas, peers)))
  }

  /**
   * The ring is sorted ascending and holds exactly the virtual nodes'
   * hashes, duplicates included: replicas of them per peer.
   */
  lemma {:induction false} RingShape(hash: Hash, replicas: int, peers: seq<string>)
    ensures MergeSort.Sorted(Ring(hash, replicas, peers))
    ensures multiset(Ring(hash, replicas, peers)) == multiset(Hashes(VNodes(hash, replicas, peers)))
    ensures |Ring(hash, replicas, peers)| == |peers| * Replicas(replicas)
  {
    MergeSort.SortingSorted(Hashes(VNodes(hash, replicas, peers)));
    MergeSort.SortingPermutes(Hashes(VNodes(hash, replicas, peers)));
    VNodesLength(hash, replicas, peers);
  }

  /**
   * Adding peers b after peers a keeps every earlier ring hash and adds
   * exactly the hashes of b's virtual nodes, replicas per peer.
   */
  lemma {:induction false} RingIncremental(hash: Hash, replicas: int, a: seq<string>, b: seq<string>)
    ensures multiset(Ring(hash, replicas, a + b)) == multiset(Ring(hash, replicas, a)) + multiset(Hashes(VNodes(hash, replicas, b)))
    ensures |Ring(hash, replicas, a + b)| == |Ring(hash, replicas, a)| + |b| * Replicas(replicas)
  {
    var va, vb := VNodes(hash, replicas, a), VNodes(hash, replicas, b);
    VNodesAppend(hash, replicas, a, b);
    HashesAppend(va, vb);
    assert Hashes(VNodes(hash, replicas, a + b)) == Hashes(va) + Hashes(vb);
    MergeSort.SortingPermutes(Hashes(va) + Hashes(vb));
    MergeSort.SortingPermutes(Hashes(va));
    VNodesLength(hash, replicas, b);
  }

  /**
   * Replica i of peer q (i below the replica count) is the virtual node
   * for hash(Itoa(i) + peers[q]) and stands for peers[q]; the replicas of
   * the peers before q come first.
   */
  lemma {:induction false} VNodeOf(hash: Hash, replicas: int, peers: seq<string>, q: nat, i: nat)
    requires q < |peers| && i < Replicas(replicas)
    ensures var j := |VNodes(hash, replicas, peers[..q])| + i;
            && j < |VNodes(hash, replicas, peers)|
            && VNodes(hash, replicas, peers)[j] == VNode(hash(Itoa(i) + peers[q]) as int, peers[q])
  {
    var a, b := peers[..q + 1], peers[q + 1..];
    assert peers == a + b;
    VNodesAppend(hash, replicas, a, b);
    assert a[..q] == peers[..q];
    PeerVNodeAt(hash, peers[q], Replicas(replicas), i);
  }

  /**
   * The hashMap of a peer list maps replica i of peer q to that peer,
   * unless a later virtual node with the same hash overwrote it.
   */
  lemma {:induction false} OwnerOf(hash: Hash, replicas: int, peers: seq<string>, q: nat, i: nat)
    requires q < |peers| && i < Replicas(replicas)
    requires var vs, j := VNodes(hash, replicas, peers), |VNodes(hash, replicas, peers[..q])| + i;
             j < |vs| && forall l :: j < l < |vs| ==> vs[l].hash != vs[j].hash
    ensures var w, h := Write(map[], VNodes(hash, replicas, peers)), hash(Itoa(i) + peers[q]) as int;
            h in w && w[h] == peers[q]
  {
    VNodeOf(hash, replicas, peers, q, i);
    WriteSpec(map[], VNodes(hash, replicas, peers));
  }

  /** Every ring hash is in hashMap, and every value of hashMap is an added peer. */
  lemma {:induction false} RingOwned(hash: Hash, replicas: int, peers: seq<string>, h: int)
    requires h in Ring(hash, replicas, peers)
    ensures h in Write(map[], VNodes(hash, replicas, peers))
    ensures Write(map[], VNodes(hash, replicas, peers))[h] in peers
  {
    var vs := VNodes(hash, replicas, peers);
    RingShape(hash, replicas, peers);
    assert h in multiset(Ring(hash, replicas, peers));
    assert h in Hashes(vs);
    WriteSpec(map[], vs);
    WriteValues(map[], vs, h);
    VNodesPeers(hash, replicas, peers);
  }
}
