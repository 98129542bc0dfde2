/**
 * The scenario of geecache/consistenthash/consistenthash_test.go: a ring
 * with 3 replicas whose hash reads the bytes as a decimal number, so that
 * replica i of peer "6" sits at i*10 + 6.
 */
module ConsistentHashTest {
  import opened Wrappers
  import opened ConsistentHash
  import MergeSort

  /** The test's hash: strconv.Atoi of the bytes, cast to uint32; a failed parse gives 0. */
  function TestHash(s: string): (h: uint32)
    ensures IsDecimal(s) && s != [] && DecimalValue(s) < 0x1_0000_0000 ==> h as int == DecimalValue(s)
  {
    if s != [] && IsDecimal(s) then (DecimalValue(s) % 0x1_0000_0000) as uint32 else 0
  }

  /** Itoa(i) followed by a one-digit peer name hashes to i*10 plus that digit. */
  lemma {:induction false} TwoDigitHash(i: nat, d: nat)
    requires i < 10 && d < 10
    ensures TestHash(Itoa(i) + [Digit(d)]) as int == 10 * i + d
  {
    var s := Itoa(i) + [Digit(d)];
    assert s == [Digit(i), Digit(d)];
    assert s[..1] == [Digit(i)] && s[..1][..0] == [];
    assert DecimalValue(s[..1]) == i;
    assert DecimalValue(s) == 10 * i + d;
  }

  /** The three virtual nodes of a one-digit peer p = d: at d, 10 + d and 20 + d. */
  function Trio(p: string, d: int): seq<VNode> {
    [VNode(d, p), VNode(10 + d, p), VNode(20 + d, p)]
  }

  lemma {:induction false} ThreeReplicas(d: nat)
    requires d < 10
    ensures PeerVNodes(TestHash, [Digit(d)], 3) == Trio([Digit(d)], d)
  {
    TwoDigitHash(0, d);
    TwoDigitHash(1, d);
    TwoDigitHash(2, d);
  }

  /** Adding a one-digit peer appends its trio. */
  lemma {:induction false} VNodesSnoc(peers: seq<string>, d: nat)
    requires d < 10
    ensures VNodes(TestHash, 3, peers + [[Digit(d)]]) == VNodes(TestHash, 3, peers) + Trio([Digit(d)], d)
  {
    var ps := peers + [[Digit(d)]];
    assert ps[..|ps| - 1] == peers;
    ThreeReplicas(d);
  }

  /** The hashes of a trio. */
  lemma {:induction false} TrioHashes(p: string, d: int)
    ensures Hashes(Trio(p, d)) == [d, 10 + d, 20 + d]
  {
    var vs := Trio(p, d);
    HashAt(vs, 0);
    HashAt(vs, 1);
    HashAt(vs, 2);
  }

  /** Writing a trio maps its three hashes to its peer. */
  lemma {:induction false} TrioWrite(m: map<int, string>, p: string, d: int)
    ensures Write(m, Trio(p, d)) == m[d := p][10 + d := p][20 + d := p]
  {
    var vs := Trio(p, d);
    assert vs[..2] == [VNode(d, p), VNode(10 + d, p)];
    assert vs[..2][..1] == [VNode(d, p)];
    assert vs[..2][..1][..0] == [];
    assert Write(m, vs[..2][..1]) == m[d := p];
    assert Write(m, vs[..2]) == m[d := p][10 + d := p];
  }

  /** A sequence whose neighbours are in order is sorted. */
  lemma {:induction false} SortedByNeighbours(s: seq<int>)
    requires forall i :: 0 <= i < |s| - 1 ==> s[i] <= s[i + 1]
    ensures MergeSort.Sorted(s)
    decreases |s|
  {
    if |s| > 1 {
      SortedByNeighbours(s[1..]);
      forall i, j | 0 <= i < j < |s| ensures s[i] <= s[j] {
        if i > 0 {
          assert s[i] == s[1..][i - 1] && s[j] == s[1..][j - 1];
        } else if j > 1 {
          assert s[j] == s[1..][j - 1] && s[1] == s[1..][0];
        }
      }
    }
  }

  /** The peers of the test's first Add. */
  const first: seq<string> := ["6", "4", "2"]

  /** The virtual nodes after Add("6", "4", "2"), in creation order. */
  lemma {:induction false} FirstVNodes()
    ensures VNodes(TestHash, 3, first) == Trio("6", 6) + Trio("4", 4) + Trio("2", 2)
  {
    assert Digit(6) == '6' && Digit(4) == '4' && Digit(2) == '2';
    assert [] + [[Digit(6)]] == ["6"];
    VNodesSnoc([], 6);
    assert ["6"] + [[Digit(4)]] == ["6", "4"];
    VNodesSnoc(["6"], 4);
    assert ["6", "4"] + [[Digit(2)]] == first;
    VNodesSnoc(["6", "4"], 2);
  }

  /** The hashes of the first Add's virtual nodes, in creation order. */
  lemma {:induction false} FirstHashes()
    ensures Hashes(VNodes(TestHash, 3, first)) == [6, 16, 26, 4, 14, 24, 2, 12, 22]
  {
    assert [6, 16, 26] + [4, 14, 24] + [2, 12, 22] == [6, 16, 26, 4, 14, 24, 2, 12, 22];
    FirstVNodes();
    HashesAppend(Trio("6", 6) + Trio("4", 4), Trio("2", 2));
    HashesAppend(Trio("6", 6), Trio("4", 4));
    TrioHashes("6", 6);
    TrioHashes("4", 4);
    TrioHashes("2", 2);
  }

  /** The virtual nodes' hashes of the first Add sorted ascending. */
  const firstRing: seq<int> := [2, 4, 6, 12, 14, 16, 22, 24, 26]

  lemma {:induction false} FirstRingSorted()
    ensures MergeSort.Sorted(firstRing)
  {
    SortedByNeighbours(firstRing);
  }

  /** The steps of FirstRingPermutes and SecondRingPermutes, one multiset equation per lemma to keep each proof small. */
  lemma {:induction false} FirstCreated()
    ensures multiset([6, 16, 26, 4, 14, 24, 2, 12, 22]) == multiset{6, 16, 26, 4, 14, 24, 2, 12, 22}
  {
  }

  lemma {:induction false} FirstShuffled()
    ensures multiset{6, 16, 26, 4, 14, 24, 2, 12, 22} == multiset{2, 4, 6, 12, 14, 16, 22, 24, 26}
  {
  }

  lemma {:induction false} FirstSorted()
    ensures multiset{2, 4, 6, 12, 14, 16, 22, 24, 26} == multiset(firstRing)
  {
  }

  lemma {:induction false} FirstRingPermutes()
    ensures multiset([6, 16, 26, 4, 14, 24, 2, 12, 22]) == multiset(firstRing)
  {
    FirstCreated();
    FirstShuffled();
    FirstSorted();
  }

  /** The sorted ring after Add("6", "4", "2"). */
  lemma {:induction false} FirstRing()
    ensures Ring(TestHash, 3, first) == firstRing
  {
    FirstHashes();
    RingShape(TestHash, 3, first);
    FirstRingSorted();
    FirstRingPermutes();
    MergeSort.SortedPermutationUnique(Ring(TestHash, 3, first), firstRing);
  }

  /** The ring after the second Add("8"). */
  const secondRing: seq<int> := [2, 4, 6, 8, 12, 14, 16, 18, 22, 24, 26, 28]

  lemma {:induction false} SecondRingSorted()
    ensures MergeSort.Sorted(secondRing)
  {
    SortedByNeighbours(secondRing);
  }

  lemma {:induction false} SecondSorted()
    ensures multiset{2, 4, 6, 8, 12, 14, 16, 18, 22, 24, 26, 28} == multiset(secondRing)
  {
  }

  lemma {:induction false} EightCreated()
    ensures multiset([8, 18, 28]) == multiset{8, 18, 28}
  {
  }

  lemma {:induction false} SecondMerged()
    ensures multiset{2, 4, 6, 12, 14, 16, 22, 24, 26} + multiset{8, 18, 28}
         == multiset{2, 4, 6, 8, 12, 14, 16, 18, 22, 24, 26, 28}
  {
  }

  lemma {:induction false} SecondRingPermutes()
    ensures multiset(firstRing) + multiset([8, 18, 28]) == multiset(secondRing)
  {
    FirstSorted();
    EightCreated();
    SecondMerged();
    SecondSorted();
  }

  /** The virtual nodes of peer "8". */
  lemma {:induction false} EightVNodes()
    ensures VNodes(TestHash, 3, ["8"]) == Trio("8", 8)
    ensures Hashes(VNodes(TestHash, 3, ["8"])) == [8, 18, 28]
  {
    assert Digit(8) == '8';
    assert [] + [[Digit(8)]] == ["8"];
    VNodesSnoc([], 8);
    TrioHashes("8", 8);
  }

  /** The sorted ring after Add("6", "4", "2") and then Add("8"). */
  lemma {:induction false} SecondRing()
    ensures Ring(TestHash, 3, first + ["8"]) == secondRing
  {
    FirstRing();
    EightVNodes();
    RingIncremental(TestHash, 3, first, ["8"]);
    RingShape(TestHash, 3, first + ["8"]);
    SecondRingSorted();
    SecondRingPermutes();
    MergeSort.SortedPermutationUnique(Ring(TestHash, 3, first + ["8"]), secondRing);
  }

  /** The hashes of the looked-up keys "2", "11", "23" and "27". */
  lemma {:induction false} KeyHashes()
    ensures TestHash("2") == 2 && TestHash("11") == 11 && TestHash("23") == 23 && TestHash("27") == 27
  {
    assert DecimalValue("2"[..0]) == 0;
    assert Digit(1) == '1' && Digit(2) == '2' && Digit(3) == '3' && Digit(7) == '7';
    TwoDigitHash(1, 1);
    assert Itoa(1) + [Digit(1)] == "11";
    TwoDigitHash(2, 3);
    assert Itoa(2) + [Digit(3)] == "23";
    TwoDigitHash(2, 7);
    assert Itoa(2) + [Digit(7)] == "27";
  }

  /** The owners the first ring's hashMap gives for the hashes the lookups land on. */
  lemma {:induction false} FirstOwners()
    ensures var w := Write(map[], VNodes(TestHash, 3, first));
            2 in w && w[2] == "2" && 12 in w && w[12] == "2" && 24 in w && w[24] == "4"
  {
    FirstVNodes();
    WriteAppend(map[], Trio("6", 6) + Trio("4", 4), Trio("2", 2));
    WriteAppend(map[], Trio("6", 6), Trio("4", 4));
    TrioWrite(map[], "6", 6);
    TrioWrite(Write(map[], Trio("6", 6)), "4", 4);
    TrioWrite(Write(map[], Trio("6", 6) + Trio("4", 4)), "2", 2);
  }

  /** The owners the second ring's hashMap gives for the hashes the lookups land on. */
  lemma {:induction false} SecondOwners()
    ensures var w := Write(map[], VNodes(TestHash, 3, first + ["8"]));
            2 in w && w[2] == "2" && 12 in w && w[12] == "2" && 24 in w && w[24] == "4" && 28 in w && w[28] == "8"
  {
    FirstOwners();
    EightVNodes();
    VNodesAppend(TestHash, 3, first, ["8"]);
    WriteAppend(map[], VNodes(TestHash, 3, first), Trio("8", 8));
    TrioWrite(Write(map[], VNodes(TestHash, 3, first)), "8", 8);
  }

  /** A lookup on a valid ring whose successor index for the key's hash is i. */
  lemma {:induction false} Lookup(m: Map, key: string, i: int, owner: string)
    requires MergeSort.Sorted(m.keys) && 0 <= i < |m.keys|
    requires var h := m.hash(key) as int;
             if i == 0 then h <= m.keys[0] || m.keys[|m.keys| - 1] < h else m.keys[i - 1] < h <= m.keys[i]
    requires m.keys[i] in m.hashMap && m.hashMap[m.keys[i]] == owner
    ensures m.Get(key) == owner
  {
    SuccessorByNeighbours(m.keys, m.hash(key) as int, i);
    var i2 :| IsSuccessor(m.keys, m.hash(key) as int, i2)
              && m.Get(key) == (if m.keys[i2] in m.hashMap then m.hashMap[m.keys[i2]] else "");
    SuccessorUnique(m.keys, m.hash(key) as int, i, i2);
  }

  /** The entries of the first ring the lookups compare with. */
  lemma {:induction false} FirstRingAt()
    ensures MergeSort.Sorted(firstRing) && |firstRing| == 9
    ensures firstRing[0] == 2 && firstRing[2] == 6 && firstRing[3] == 12 && firstRing[6] == 22
    ensures firstRing[7] == 24 && firstRing[8] == 26
  {
    FirstRingSorted();
  }

  /** The entries of the second ring the lookups compare with. */
  lemma {:induction false} SecondRingAt()
    ensures MergeSort.Sorted(secondRing) && |secondRing| == 12
    ensures secondRing[0] == 2 && secondRing[3] == 8 && secondRing[4] == 12 && secondRing[8] == 22
    ensures secondRing[9] == 24 && secondRing[10] == 26 && secondRing[11] == 28
  {
    SecondRingSorted();
  }

  /** The ring state after Add("6", "4", "2"). */
  lemma {:induction false} FirstState(m: Map)
    requires m.Valid() && m.hash == TestHash && m.replicas == 3 && m.added == first
    ensures MergeSort.Sorted(m.keys) && |m.keys| == 9
    ensures m.keys[0] == 2 && m.keys[2] == 6 && m.keys[3] == 12 && m.keys[6] == 22 && m.keys[7] == 24 && m.keys[8] == 26
    ensures 2 in m.hashMap && m.hashMap[2] == "2" && 12 in m.hashMap && m.hashMap[12] == "2"
    ensures 24 in m.hashMap && m.hashMap[24] == "4"
  {
    FirstRing();
    FirstRingAt();
    FirstOwners();
  }

  /** The four lookups after Add("6", "4", "2"). */
  lemma {:induction false} FirstLookups(m: Map)
    requires m.Valid() && m.hash == TestHash && m.replicas == 3 && m.added == first
    ensures [m.Get("2"), m.Get("11"), m.Get("23"), m.Get("27")] == ["2", "2", "4", "2"]
  {
    KeyHashes();
    FirstState(m);
    Lookup(m, "2", 0, "2");
    Lookup(m, "11", 3, "2");
    Lookup(m, "23", 7, "4");
    Lookup(m, "27", 0, "2");
  }

  /** The ring state after Add("8"). */
  lemma {:induction false} SecondState(m: Map)
    requires m.Valid() && m.hash == TestHash && m.replicas == 3 && m.added == first + ["8"]
    ensures MergeSort.Sorted(m.keys) && |m.keys| == 12
    ensures m.keys[0] == 2 && m.keys[3] == 8 && m.keys[4] == 12 && m.keys[8] == 22 && m.keys[9] == 24
    ensures m.keys[10] == 26 && m.keys[11] == 28
    ensures 2 in m.hashMap && m.hashMap[2] == "2" && 12 in m.hashMap && m.hashMap[12] == "2"
    ensures 24 in m.hashMap && m.hashMap[24] == "4" && 28 in m.hashMap && m.hashMap[28] == "8"
  {
    SecondRing();
    SecondRingAt();
    SecondOwners();
  }

  /** The four lookups after Add("8"): only "27" moves, to the new peer. */
  lemma {:induction false} SecondLookups(m: Map)
    requires m.Valid() && m.hash == TestHash && m.replicas == 3 && m.added == first + ["8"]
    ensures [m.Get("2"), m.Get("11"), m.Get("23"), m.Get("27")] == ["2", "2", "4", "8"]
  {
    KeyHashes();
    SecondState(m);
    Lookup(m, "2", 0, "2");
    Lookup(m, "11", 4, "2");
    Lookup(m, "23", 9, "4");
    Lookup(m, "27", 11, "8");
  }

  /** consistenthash_test.go TestHashing: the lookups before and after adding peer "8". */
  method TestHashing() returns (before: seq<string>, after: seq<string>)
    ensures before == ["2", "2", "4", "2"]
    ensures after == ["2", "2", "4", "8"]
  {
    var m := new Map(3, Some(TestHash), TestHash);
    m.Add(first);
    assert m.added == first;
    FirstLookups(m);
    before := [m.Get("2"), m.Get("11"), m.Get("23"), m.Get("27")];
    m.Add(["8"]);
    SecondLookups(m);
    after := [m.Get("2"), m.Get("11"), m.Get("23"), m.Get("27")];
  }
}
