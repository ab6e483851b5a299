/** The chains of lib/hash.c as values: which entries each bucket links, what map they stand for, and
    how one insertion, overwrite or deletion changes that map. */
module HashChains {
  import opened MachineInts
  import opened Powers

  type Key = seq<byte>

  /** `hash_entry_t`; `key` stands for the pair of key pointer and length. A value of 0 is NULL. */
  class Entry {
    var next: Entry?
    var key: Key
    var hash: u32
    var val: nat

    constructor ()
      ensures next == null
    {
      next, key, hash, val := null, [], 0, 0;
    }
  }

  /** The fields of an entry. */
  datatype Node = Node(next: Entry?, key: Key, hash: u32, val: nat)

  type Nodes = map<Entry, Node>
  type Hashing = Key -> u32
  type Chain = seq<Entry>

  /** C's `&` on unsigned numbers. */
  function And(a: nat, b: nat): (r: nat)
    ensures r <= b
  {
    if a == 0 || b == 0 then 0
    else 2 * And(a / 2, b / 2) + (if a % 2 == 1 && b % 2 == 1 then 1 else 0)
  }

  /** For a mask of ones this is the remainder. */
  lemma {:induction false} MaskIsRemainder(a: nat, mask: nat)
    requires AllOnes(mask)
    ensures And(a, mask) == a % (mask + 1)
  {
    if mask == 0 {
      assert a == 1 * a + 0;
      DivisionIs(a, 1, a, 0);
    } else if a == 0 {
      DivisionIs(0, mask + 1, 0, 0);
    } else {
      var m := mask / 2 + 1;
      assert mask + 1 == 2 * m;
      MaskIsRemainder(a / 2, mask / 2);
      DoubleRemainder(a, m);
      assert And(a, mask) == 2 * (a / 2 % m) + a % 2;
    }
  }

  lemma DoubleRemainder(a: nat, m: nat)
    requires m > 0
    ensures a % (2 * m) == 2 * (a / 2 % m) + a % 2
  {
    var q, r := a / 2 / m, a / 2 % m;
    assert a == 2 * (a / 2) + a % 2 && a / 2 == m * q + r;
    assert 2 * (m * q) == 2 * m * q;
    DivisionIs(a, 2 * m, q, 2 * r + a % 2);
  }

  /** One less than a power of two, as the sizes of tables are. */
  predicate AllOnes(mask: nat) {
    mask == 0 || (mask % 2 == 1 && AllOnes(mask / 2))
  }

  /** The bucket of a key; it exists whatever `max` is. */
  function Bucket(f: Hashing, max: nat, k: Key): (b: nat)
    ensures b <= max
  {
    And(f(k), max)
  }

  /** The `j`th entry of a chain, or NULL past its end. */
  function At(chain: Chain, j: nat): Entry? {
    if j < |chain| then chain[j] else null
  }

  ghost predicate LinkOk(nodes: Nodes, chain: Chain, j: nat)
    requires j < |chain|
  {
    chain[j] in nodes && nodes[chain[j]].next == At(chain, j + 1)
  }

  /** Each entry of `chain` links to the one after it and the last to NULL. */
  ghost predicate Linked(nodes: Nodes, chain: Chain) {
    forall j {:trigger LinkOk(nodes, chain, j)} :: 0 <= j < |chain| ==> LinkOk(nodes, chain, j)
  }

  /** The node is filed in bucket `b` and holds what `m` says. */
  predicate Filed(f: Hashing, max: nat, n: Node, b: nat, m: map<Key, nat>) {
    n.key in m && m[n.key] == n.val && n.hash == f(n.key) && Bucket(f, max, n.key) == b
  }

  ghost predicate HasKey(nodes: Nodes, chain: Chain, k: Key) {
    exists j :: 0 <= j < |chain| && chain[j] in nodes && nodes[chain[j]].key == k
  }

  /** The `j`th entry of the chain of bucket `b` is right. */
  ghost predicate EntryOk(f: Hashing, max: nat, nodes: Nodes, chain: Chain, b: nat, m: map<Key, nat>, j: nat)
    requires j < |chain|
  {
    LinkOk(nodes, chain, j) && Filed(f, max, nodes[chain[j]], b, m)
  }

  ghost predicate KeysDiffer(nodes: Nodes, chain: Chain, i: nat, j: nat)
    requires i < |chain| && j < |chain|
  {
    chain[i] in nodes && chain[j] in nodes && nodes[chain[i]].key != nodes[chain[j]].key
  }

  ghost predicate ChainOk(f: Hashing, max: nat, nodes: Nodes, chain: Chain, b: nat, m: map<Key, nat>) {
    && (forall j {:trigger EntryOk(f, max, nodes, chain, b, m, j)} :: 0 <= j < |chain| ==>
          EntryOk(f, max, nodes, chain, b, m, j))
    && (forall i, j {:trigger KeysDiffer(nodes, chain, i, j)} :: 0 <= i < j < |chain| ==>
          KeysDiffer(nodes, chain, i, j))
  }

  /** The chains hold the map `m`: each entry sits in the bucket of its hash with the value `m` gives its
      key, no key comes twice, and every key of `m` is there. */
  ghost predicate Holds(f: Hashing, max: nat, nodes: Nodes, chains: seq<Chain>, m: map<Key, nat>) {
    && |chains| == max + 1
    && (forall b {:trigger ChainOk(f, max, nodes, chains[b], b, m)} :: 0 <= b <= max ==>
          ChainOk(f, max, nodes, chains[b], b, m))
    && (forall k {:trigger HasKey(nodes, chains[Bucket(f, max, k)], k)} :: k in m ==>
          HasKey(nodes, chains[Bucket(f, max, k)], k))
  }

  function Seat(chains: seq<Chain>, b: nat, j: nat): Entry
    requires b < |chains| && j < |chains[b]|
  {
    chains[b][j]
  }

  /** Some chain holds the entry. */
  ghost predicate InChains(chains: seq<Chain>, e: Entry) {
    exists b, j {:trigger Seat(chains, b, j)} :: 0 <= b < |chains| && 0 <= j < |chains[b]| && Seat(chains, b, j) == e
  }

  /** An entry is in the chain of its own key's bucket and no other. */
  lemma OwnBucket(f: Hashing, max: nat, nodes: Nodes, chains: seq<Chain>, m: map<Key, nat>, b: nat, j: nat)
    requires Holds(f, max, nodes, chains, m) && b <= max && j < |chains[b]|
    ensures var e := chains[b][j];
            && InChains(chains, e) && e in nodes && Filed(f, max, nodes[e], b, m)
            && nodes[e].next == At(chains[b], j + 1)
  {
    assert ChainOk(f, max, nodes, chains[b], b, m);
    assert EntryOk(f, max, nodes, chains[b], b, m, j);
    assert Seat(chains, b, j) == chains[b][j];
  }

  ghost predicate Same(nodes: Nodes, nodes': Nodes, e: Entry) {
    e in nodes && e in nodes' && nodes'[e] == nodes[e]
  }

  /** Nothing in a chain changes for the nodes and the map: the chain stays right. */
  lemma ChainFrame(f: Hashing, max: nat, nodes: Nodes, chain: Chain, b: nat, m: map<Key, nat>,
                   nodes': Nodes, m': map<Key, nat>)
    requires ChainOk(f, max, nodes, chain, b, m)
    requires forall j :: 0 <= j < |chain| ==> Same(nodes, nodes', chain[j])
    requires forall k :: k in m && Bucket(f, max, k) == b ==> k in m' && m'[k] == m[k]
    ensures ChainOk(f, max, nodes', chain, b, m')
  {
    forall j | 0 <= j < |chain| ensures EntryOk(f, max, nodes', chain, b, m', j) {
      assert EntryOk(f, max, nodes, chain, b, m, j);
    }
    forall i, j | 0 <= i < j < |chain| ensures KeysDiffer(nodes', chain, i, j) {
      assert KeysDiffer(nodes, chain, i, j);
    }
  }

  /** One bucket changes, for one key. */
  lemma OneBucket(f: Hashing, max: nat, nodes: Nodes, chains: seq<Chain>, m: map<Key, nat>,
                  k: Key, nodes': Nodes, chain: Chain, m': map<Key, nat>)
    requires Holds(f, max, nodes, chains, m)
    requires forall b, j :: 0 <= b <= max && b != Bucket(f, max, k) && 0 <= j < |chains[b]| ==>
               Same(nodes, nodes', chains[b][j])
    requires forall x :: x != k ==> (x in m <==> x in m') && (x in m ==> m[x] == m'[x])
    requires ChainOk(f, max, nodes', chain, Bucket(f, max, k), m')
    requires forall x :: x in m' && Bucket(f, max, x) == Bucket(f, max, k) ==> HasKey(nodes', chain, x)
    ensures Holds(f, max, nodes', chains[Bucket(f, max, k) := chain], m')
  {
    var chains' := chains[Bucket(f, max, k) := chain];
    forall b | 0 <= b <= max ensures ChainOk(f, max, nodes', chains'[b], b, m') {
      if b != Bucket(f, max, k) {
        assert ChainOk(f, max, nodes, chains[b], b, m);
        ChainFrame(f, max, nodes, chains[b], b, m, nodes', m');
      }
    }
    forall x | x in m' ensures HasKey(nodes', chains'[Bucket(f, max, x)], x) {
      var b := Bucket(f, max, x);
      if b != Bucket(f, max, k) {
        assert HasKey(nodes, chains[b], x);
        var j :| 0 <= j < |chains[b]| && chains[b][j] in nodes && nodes[chains[b][j]].key == x;
        assert chains'[b][j] in nodes' && nodes'[chains'[b][j]].key == x;
      }
    }
  }

  /** What one chain search finds. */
  lemma FoundInChain(f: Hashing, max: nat, nodes: Nodes, chains: seq<Chain>, m: map<Key, nat>, k: Key, j: nat)
    requires Holds(f, max, nodes, chains, m)
    requires var c := chains[Bucket(f, max, k)];
             && j <= |c| && (forall i :: 0 <= i < j ==> c[i] in nodes && nodes[c[i]].key != k)
             && (j < |c| ==> c[j] in nodes && nodes[c[j]].key == k)
    ensures var c := chains[Bucket(f, max, k)];
            && (k in m <==> j < |c|)
            && (j < |c| ==> nodes[c[j]].val == m[k])
  {
    var b := Bucket(f, max, k);
    var c := chains[b];
    assert ChainOk(f, max, nodes, c, b, m);
    if k in m {
      assert HasKey(nodes, c, k);
    }
    if j < |c| {
      assert EntryOk(f, max, nodes, c, b, m, j);
    }
  }

  /** The links of `nodes` with one more entry at the end of `chain`. */
  function Appended(nodes: Nodes, chain: Chain, e: Entry, n: Node): (r: Nodes) {
    if chain == [] || chain[|chain| - 1] !in nodes then nodes[e := n]
    else
      var last := chain[|chain| - 1];
      nodes[e := n][last := nodes[last].(next := e)]
  }

  /** The chain of a bucket, an entry appended for a new key. */
  lemma AppendToChain(f: Hashing, max: nat, nodes: Nodes, chain: Chain, m: map<Key, nat>, e: Entry, n: Node)
    requires ChainOk(f, max, nodes, chain, Bucket(f, max, n.key), m)
    requires n.key !in m && n.hash == f(n.key) && n.next == null && e !in chain
    ensures ChainOk(f, max, Appended(nodes, chain, e, n), chain + [e], Bucket(f, max, n.key), m[n.key := n.val])
  {
    var b, nodes', chain', m' := Bucket(f, max, n.key), Appended(nodes, chain, e, n), chain + [e], m[n.key := n.val];
    forall j | 0 <= j < |chain| ensures SameBut(nodes, nodes', chain[j]) && Filed(f, max, nodes[chain[j]], b, m) {
      assert EntryOk(f, max, nodes, chain, b, m, j);
    }
    forall j | 0 <= j < |chain'| ensures EntryOk(f, max, nodes', chain', b, m', j) {
      if j < |chain| {
        assert SameBut(nodes, nodes', chain[j]) && EntryOk(f, max, nodes, chain, b, m, j);
        LastDiffers(f, max, nodes, chain, b, m, j);
      }
    }
    forall i, j | 0 <= i < j < |chain'| ensures KeysDiffer(nodes', chain', i, j) {
      assert SameBut(nodes, nodes', chain[i]);
      if j < |chain| {
        assert SameBut(nodes, nodes', chain[j]) && KeysDiffer(nodes, chain, i, j);
      }
    }
  }

  /** The entry is the same but for its link. */
  ghost predicate SameBut(nodes: Nodes, nodes': Nodes, e: Entry) {
    e in nodes && e in nodes' && nodes'[e] == nodes[e].(next := nodes'[e].next)
  }

  lemma LastDiffers(f: Hashing, max: nat, nodes: Nodes, chain: Chain, b: nat, m: map<Key, nat>, j: nat)
    requires ChainOk(f, max, nodes, chain, b, m) && j < |chain|
    ensures j < |chain| - 1 ==> chain[j] != chain[|chain| - 1]
  {
    if j < |chain| - 1 {
      assert KeysDiffer(nodes, chain, j, |chain| - 1);
    }
  }

  /** Appending an entry that no chain holds adds its key and value to the map. */
  lemma AppendAdds(f: Hashing, max: nat, nodes: Nodes, chains: seq<Chain>, m: map<Key, nat>, e: Entry, n: Node)
    requires Holds(f, max, nodes, chains, m) && !InChains(chains, e)
    requires n.key !in m && n.hash == f(n.key) && n.next == null
    ensures var b := Bucket(f, max, n.key);
            Holds(f, max, Appended(nodes, chains[b], e, n), chains[b := chains[b] + [e]], m[n.key := n.val])
  {
    var b := Bucket(f, max, n.key);
    var chain := chains[b];
    var nodes', m' := Appended(nodes, chain, e, n), m[n.key := n.val];
    assert ChainOk(f, max, nodes, chain, b, m);
    forall c, j | 0 <= c <= max && 0 <= j < |chains[c]|
      ensures chains[c][j] in nodes && chains[c][j] != e && Filed(f, max, nodes[chains[c][j]], c, m)
    {
      OwnBucket(f, max, nodes, chains, m, c, j);
    }
    AppendToChain(f, max, nodes, chain, m, e, n);
    forall x | x in m' && Bucket(f, max, x) == b ensures HasKey(nodes', chain + [e], x) {
      if x == n.key {
        assert (chain + [e])[|chain|] == e;
      } else {
        assert HasKey(nodes, chains[Bucket(f, max, x)], x);
        var j :| 0 <= j < |chain| && chain[j] in nodes && nodes[chain[j]].key == x;
        assert (chain + [e])[j] == chain[j];
      }
    }
    OneBucket(f, max, nodes, chains, m, n.key, nodes', chain + [e], m');
  }

  /** Pushing an entry in front of its bucket, as the expansion does. */
  lemma PushAdds(f: Hashing, max: nat, nodes: Nodes, chains: seq<Chain>, m: map<Key, nat>, e: Entry, n: Node)
    requires Holds(f, max, nodes, chains, m) && !InChains(chains, e)
    requires n.key !in m && n.hash == f(n.key) && n.next == At(chains[Bucket(f, max, n.key)], 0)
    ensures var b := Bucket(f, max, n.key);
            Holds(f, max, nodes[e := n], chains[b := [e] + chains[b]], m[n.key := n.val])
  {
    var b := Bucket(f, max, n.key);
    var chain := chains[b];
    var nodes', m', chain' := nodes[e := n], m[n.key := n.val], [e] + chain;
    assert ChainOk(f, max, nodes, chain, b, m);
    forall c, j | 0 <= c <= max && 0 <= j < |chains[c]| ensures chains[c][j] in nodes && chains[c][j] != e {
      OwnBucket(f, max, nodes, chains, m, c, j);
    }
    forall j | 0 <= j < |chain'| ensures EntryOk(f, max, nodes', chain', b, m', j) {
      assert j > 0 ==> EntryOk(f, max, nodes, chain, b, m, j - 1);
    }
    forall i, j | 0 <= i < j < |chain'| ensures KeysDiffer(nodes', chain', i, j) {
      assert EntryOk(f, max, nodes, chain, b, m, j - 1);
      assert i > 0 ==> KeysDiffer(nodes, chain, i - 1, j - 1);
    }
    forall x | x in m' && Bucket(f, max, x) == b ensures HasKey(nodes', chain', x) {
      if x == n.key {
        assert chain'[0] == e;
      } else {
        assert HasKey(nodes, chains[Bucket(f, max, x)], x);
        var j :| 0 <= j < |chain| && chain[j] in nodes && nodes[chain[j]].key == x;
        assert chain'[j + 1] == chain[j];
      }
    }
    OneBucket(f, max, nodes, chains, m, n.key, nodes', chain', m');
  }

  /** Overwriting the value of an entry changes the map at its key only. */
  lemma OverwriteChanges(f: Hashing, max: nat, nodes: Nodes, chains: seq<Chain>, m: map<Key, nat>,
                         b: nat, j: nat, val: nat)
    requires Holds(f, max, nodes, chains, m) && b <= max && j < |chains[b]| && chains[b][j] in nodes
    ensures var e := chains[b][j];
            Holds(f, max, nodes[e := nodes[e].(val := val)], chains, m[nodes[e].key := val])
  {
    var chain := chains[b];
    var e := chain[j];
    var k := nodes[e].key;
    var nodes', m' := nodes[e := nodes[e].(val := val)], m[k := val];
    assert ChainOk(f, max, nodes, chain, b, m);
    assert EntryOk(f, max, nodes, chain, b, m, j);
    forall i | 0 <= i < |chain| ensures EntryOk(f, max, nodes', chain, b, m', i) {
      assert EntryOk(f, max, nodes, chain, b, m, i);
      assert i < j ==> KeysDiffer(nodes, chain, i, j);
      assert j < i ==> KeysDiffer(nodes, chain, j, i);
    }
    forall i, h | 0 <= i < h < |chain| ensures KeysDiffer(nodes', chain, i, h) {
      assert KeysDiffer(nodes, chain, i, h);
    }
    forall c, i | 0 <= c <= max && c != b && 0 <= i < |chains[c]|
      ensures Same(nodes, nodes', chains[c][i])
    {
      OwnBucket(f, max, nodes, chains, m, c, i);
    }
    forall x | x in m' && Bucket(f, max, x) == b ensures HasKey(nodes', chain, x) {
      assert HasKey(nodes, chains[Bucket(f, max, x)], x);
    }
    OneBucket(f, max, nodes, chains, m, k, nodes', chain, m');
    assert chains[b := chain] == chains;
  }

  function Without(chain: Chain, j: nat): Chain
    requires j < |chain|
  {
    chain[..j] + chain[j + 1..]
  }

  lemma WithoutAt(chain: Chain, j: nat, i: nat)
    requires j < |chain| && i < |chain| - 1
    ensures |Without(chain, j)| == |chain| - 1 && Without(chain, j)[i] == chain[if i < j then i else i + 1]
  {
  }

  /** The links of `nodes` after the entry before the `j`th skips it. */
  function Unlinked(nodes: Nodes, chain: Chain, j: nat): (r: Nodes)
    requires j < |chain|
  {
    if j == 0 || chain[j - 1] !in nodes then nodes
    else nodes[chain[j - 1] := nodes[chain[j - 1]].(next := At(chain, j + 1))]
  }

  lemma UnlinkFromChain(f: Hashing, max: nat, nodes: Nodes, chain: Chain, b: nat, m: map<Key, nat>, j: nat)
    requires ChainOk(f, max, nodes, chain, b, m) && j < |chain| && chain[j] in nodes
    ensures ChainOk(f, max, Unlinked(nodes, chain, j), Without(chain, j), b, m - {nodes[chain[j]].key})
  {
    var nodes', chain', m' := Unlinked(nodes, chain, j), Without(chain, j), m - {nodes[chain[j]].key};
    forall i | 0 <= i < |chain'| ensures EntryOk(f, max, nodes', chain', b, m', i) {
      WithoutAt(chain, j, i);
      if i + 1 < |chain'| {
        WithoutAt(chain, j, i + 1);
      }
      var h := if i < j then i else i + 1;
      assert EntryOk(f, max, nodes, chain, b, m, h);
      assert h < j ==> KeysDiffer(nodes, chain, h, j);
      assert j < h ==> KeysDiffer(nodes, chain, j, h);
      assert h < j - 1 ==> KeysDiffer(nodes, chain, h, j - 1);
      assert j - 1 < h && j > 0 ==> KeysDiffer(nodes, chain, j - 1, h);
    }
    forall i, h | 0 <= i < h < |chain'| ensures KeysDiffer(nodes', chain', i, h) {
      WithoutAt(chain, j, i);
      WithoutAt(chain, j, h);
      assert KeysDiffer(nodes, chain, if i < j then i else i + 1, if h < j then h else h + 1);
    }
  }

  /** Unlinking an entry removes its key from the map. */
  lemma UnlinkRemoves(f: Hashing, max: nat, nodes: Nodes, chains: seq<Chain>, m: map<Key, nat>, b: nat, j: nat)
    requires Holds(f, max, nodes, chains, m) && b <= max && j < |chains[b]| && chains[b][j] in nodes
    ensures Holds(f, max, Unlinked(nodes, chains[b], j), chains[b := Without(chains[b], j)],
                  m - {nodes[chains[b][j]].key})
  {
    var chain := chains[b];
    var k := nodes[chain[j]].key;
    var nodes', chain', m' := Unlinked(nodes, chain, j), Without(chain, j), m - {k};
    assert ChainOk(f, max, nodes, chain, b, m);
    UnlinkFromChain(f, max, nodes, chain, b, m, j);
    OwnBucket(f, max, nodes, chains, m, b, j);
    forall c, i | 0 <= c <= max && c != b && 0 <= i < |chains[c]|
      ensures Same(nodes, nodes', chains[c][i])
    {
      OwnBucket(f, max, nodes, chains, m, c, i);
      if j > 0 {
        OwnBucket(f, max, nodes, chains, m, b, j - 1);
      }
    }
    forall x | x in m' && Bucket(f, max, x) == b ensures HasKey(nodes', chain', x) {
      assert HasKey(nodes, chains[Bucket(f, max, x)], x);
      var i :| 0 <= i < |chain| && chain[i] in nodes && nodes[chain[i]].key == x;
      WithoutAt(chain, j, if i < j then i else i - 1);
      assert chain'[if i < j then i else i - 1] == chain[i];
    }
    OneBucket(f, max, nodes, chains, m, k, nodes', chain', m');
  }

  /** Nodes outside every chain do not matter. */
  lemma HoldsFrame(f: Hashing, max: nat, nodes: Nodes, chains: seq<Chain>, m: map<Key, nat>, nodes': Nodes)
    requires Holds(f, max, nodes, chains, m)
    requires forall e :: e in nodes && InChains(chains, e) ==> Same(nodes, nodes', e)
    ensures Holds(f, max, nodes', chains, m)
  {
    forall b, j | 0 <= b <= max && 0 <= j < |chains[b]|
      ensures Same(nodes, nodes', chains[b][j])
    {
      OwnBucket(f, max, nodes, chains, m, b, j);
    }
    forall b | 0 <= b <= max ensures ChainOk(f, max, nodes', chains[b], b, m) {
      assert ChainOk(f, max, nodes, chains[b], b, m);
      ChainFrame(f, max, nodes, chains[b], b, m, nodes', m);
    }
    forall k | k in m ensures HasKey(nodes', chains[Bucket(f, max, k)], k) {
      assert HasKey(nodes, chains[Bucket(f, max, k)], k);
    }
  }

  // ----- all entries, bucket after bucket

  /** The entries of the chains from bucket `b` on. */
  function Entries(chains: seq<Chain>, b: nat): Chain
    requires b <= |chains|
    decreases |chains| - b
  {
    if b == |chains| then [] else chains[b] + Entries(chains, b + 1)
  }

  /** Whatever follows bucket `b` is filed in `b` or later. */
  lemma {:induction false} EntriesFiled(f: Hashing, max: nat, nodes: Nodes, chains: seq<Chain>, m: map<Key, nat>,
                                        b: nat, i: nat)
    requires Holds(f, max, nodes, chains, m) && b <= max + 1 && i < |Entries(chains, b)|
    ensures var e := Entries(chains, b)[i];
            && e in nodes && nodes[e].key in m && nodes[e].val == m[nodes[e].key]
            && b <= Bucket(f, max, nodes[e].key)
    decreases max + 1 - b
  {
    if i < |chains[b]| {
      OwnBucket(f, max, nodes, chains, m, b, i);
    } else {
      EntriesFiled(f, max, nodes, chains, m, b + 1, i - |chains[b]|);
    }
  }

  lemma {:induction false} EntriesDiffer(f: Hashing, max: nat, nodes: Nodes, chains: seq<Chain>, m: map<Key, nat>,
                                         b: nat, i: nat, j: nat)
    requires Holds(f, max, nodes, chains, m) && b <= max + 1 && i < j < |Entries(chains, b)|
    ensures var es := Entries(chains, b);
            es[i] in nodes && es[j] in nodes && nodes[es[i]].key != nodes[es[j]].key
    decreases max + 1 - b
  {
    var c := chains[b];
    assert ChainOk(f, max, nodes, c, b, m);
    if i >= |c| {
      EntriesDiffer(f, max, nodes, chains, m, b + 1, i - |c|, j - |c|);
    } else if j >= |c| {
      OwnBucket(f, max, nodes, chains, m, b, i);
      EntriesFiled(f, max, nodes, chains, m, b + 1, j - |c|);
    } else {
      assert KeysDiffer(nodes, c, i, j);
    }
  }

  lemma {:induction false} EntriesCover(f: Hashing, max: nat, nodes: Nodes, chains: seq<Chain>, m: map<Key, nat>,
                                        b: nat, k: Key)
    requires Holds(f, max, nodes, chains, m) && k in m && b <= Bucket(f, max, k)
    ensures HasKey(nodes, Entries(chains, b), k)
    decreases max + 1 - b
  {
    var es := Entries(chains, b);
    if b == Bucket(f, max, k) {
      assert HasKey(nodes, chains[Bucket(f, max, k)], k);
      var j :| 0 <= j < |chains[b]| && chains[b][j] in nodes && nodes[chains[b][j]].key == k;
      assert es[j] == chains[b][j];
    } else {
      EntriesCover(f, max, nodes, chains, m, b + 1, k);
      var rest := Entries(chains, b + 1);
      var j :| 0 <= j < |rest| && rest[j] in nodes && nodes[rest[j]].key == k;
      assert es[|chains[b]| + j] == rest[j];
    }
  }

  /** Walking the buckets in order meets each key of the map exactly once, with its value. */
  lemma {:induction false} EntriesOnce(f: Hashing, max: nat, nodes: Nodes, chains: seq<Chain>, m: map<Key, nat>, k: Key)
    requires Holds(f, max, nodes, chains, m) && k in m
    ensures var es := Entries(chains, 0);
            exists i :: 0 <= i < |es| && es[i] in nodes && nodes[es[i]].key == k && nodes[es[i]].val == m[k]
                        && forall j :: 0 <= j < |es| && j != i ==> es[j] in nodes && nodes[es[j]].key != k
  {
    var es := Entries(chains, 0);
    EntriesCover(f, max, nodes, chains, m, 0, k);
    var i :| 0 <= i < |es| && es[i] in nodes && nodes[es[i]].key == k;
    EntriesFiled(f, max, nodes, chains, m, 0, i);
    forall j | 0 <= j < |es| && j != i ensures es[j] in nodes && nodes[es[j]].key != k {
      if i < j {
        EntriesDiffer(f, max, nodes, chains, m, 0, i, j);
      } else {
        EntriesDiffer(f, max, nodes, chains, m, 0, j, i);
      }
    }
  }

  /** The walk is as long as the map is large. */
  lemma EntriesCount(f: Hashing, max: nat, nodes: Nodes, chains: seq<Chain>, m: map<Key, nat>)
    requires Holds(f, max, nodes, chains, m)
    ensures |Entries(chains, 0)| == |m|
  {
    var es := Entries(chains, 0);
    forall i | 0 <= i < |es| ensures es[i] in nodes && nodes[es[i]].key in m {
      EntriesFiled(f, max, nodes, chains, m, 0, i);
    }
    var keys := seq(|es|, i requires 0 <= i < |es| => nodes[es[i]].key);
    forall i, j | 0 <= i < j < |keys| ensures keys[i] != keys[j] {
      EntriesDiffer(f, max, nodes, chains, m, 0, i, j);
    }
    forall k | k in m ensures k in keys {
      EntriesCover(f, max, nodes, chains, m, 0, k);
      var i :| 0 <= i < |es| && es[i] in nodes && nodes[es[i]].key == k;
      assert keys[i] == k;
    }
    DistinctCount(keys);
    assert (set k | k in keys) == m.Keys;
  }

  lemma {:induction false} DistinctCount(keys: seq<Key>)
    requires forall i, j :: 0 <= i < j < |keys| ==> keys[i] != keys[j]
    ensures |set k | k in keys| == |keys|
  {
    if keys != [] {
      var n := |keys| - 1;
      DistinctCount(keys[..n]);
      assert (set k | k in keys) == (set k | k in keys[..n]) + {keys[n]};
    }
  }

  // ----- recycled entries

  ghost predicate NoRepeat(spare: Chain) {
    forall i {:trigger Later(spare, i)} :: 0 <= i < |spare| ==> Later(spare, i)
  }

  ghost predicate Later(spare: Chain, i: nat)
    requires i < |spare|
  {
    spare[i] !in spare[i + 1..]
  }

  /** Unused entries, linked in turn, none of them in a chain and none twice. */
  ghost predicate Recycled(nodes: Nodes, chains: seq<Chain>, spare: Chain) {
    && Linked(nodes, spare)
    && (forall j {:trigger InChains(chains, spare[j])} :: 0 <= j < |spare| ==> !InChains(chains, spare[j]))
    && NoRepeat(spare)
  }

  lemma RecycledFrame(nodes: Nodes, chains: seq<Chain>, spare: Chain, nodes': Nodes, chains': seq<Chain>)
    requires Recycled(nodes, chains, spare)
    requires forall e :: e in spare && e in nodes ==> Same(nodes, nodes', e)
    requires forall e :: InChains(chains', e) ==> InChains(chains, e) || e !in spare
    ensures Recycled(nodes', chains', spare)
  {
    forall j | 0 <= j < |spare| ensures LinkOk(nodes', spare, j) && !InChains(chains', spare[j]) {
      assert LinkOk(nodes, spare, j) && !InChains(chains, spare[j]);
    }
  }

  /** The first recycled entry is taken off. */
  lemma RecycledTake(nodes: Nodes, chains: seq<Chain>, spare: Chain)
    requires Recycled(nodes, chains, spare) && spare != []
    ensures spare[0] in nodes && nodes[spare[0]].next == At(spare[1..], 0)
    ensures Recycled(nodes, chains, spare[1..]) && spare[0] !in spare[1..] && !InChains(chains, spare[0])
  {
    assert LinkOk(nodes, spare, 0) && Later(spare, 0) && !InChains(chains, spare[0]);
    var spare' := spare[1..];
    forall j | 0 <= j < |spare'| ensures LinkOk(nodes, spare', j) && !InChains(chains, spare'[j]) && Later(spare', j) {
      assert LinkOk(nodes, spare, j + 1) && !InChains(chains, spare[j + 1]) && Later(spare, j + 1);
      assert spare'[j + 1..] == spare[j + 2..];
    }
  }

  /** An entry that has left the chains is put in front. */
  lemma RecycledPut(nodes: Nodes, chains: seq<Chain>, spare: Chain, e: Entry, n: Node)
    requires Recycled(nodes, chains, spare) && !InChains(chains, e) && e !in spare && n.next == At(spare, 0)
    ensures Recycled(nodes[e := n], chains, [e] + spare)
  {
    var nodes', spare' := nodes[e := n], [e] + spare;
    forall j | 0 <= j < |spare'| ensures LinkOk(nodes', spare', j) && !InChains(chains, spare'[j]) && Later(spare', j) {
      assert j > 0 ==> LinkOk(nodes, spare, j - 1) && !InChains(chains, spare[j - 1]) && Later(spare, j - 1);
      assert spare'[j + 1..] == spare[j..];
    }
  }

  // ----- the whole table

  ghost predicate HeadOk(heads: seq<Entry?>, chains: seq<Chain>, b: nat)
    requires b < |heads| && b < |chains|
  {
    heads[b] == At(chains[b], 0)
  }

  ghost predicate HeadsOk(heads: seq<Entry?>, chains: seq<Chain>) {
    && |heads| == |chains|
    && (forall b {:trigger HeadOk(heads, chains, b)} :: 0 <= b < |heads| ==> HeadOk(heads, chains, b))
  }

  /** What there is to say about a table. */
  datatype Part = Heads | FreeList | Filing

  ghost predicate PartOk(part: Part, f: Hashing, max: nat, nodes: Nodes, heads: seq<Entry?>, free: Entry?,
                         chains: seq<Chain>, spare: Chain, m: map<Key, nat>)
  {
    match part
    case Heads => HeadsOk(heads, chains)
    case FreeList => free == At(spare, 0) && Recycled(nodes, chains, spare)
    case Filing => Holds(f, max, nodes, chains, m)
  }

  /** The heads of the buckets, the chains behind them and the recycled entries; the chains hold `m`. Proofs
      about whole tables need not look at the parts. */
  ghost predicate Whole(f: Hashing, max: nat, nodes: Nodes, heads: seq<Entry?>, free: Entry?,
                        chains: seq<Chain>, spare: Chain, m: map<Key, nat>)
  {
    && |heads| == |chains| == max + 1
    && forall part {:trigger PartOk(part, f, max, nodes, heads, free, chains, spare, m)} ::
         PartOk(part, f, max, nodes, heads, free, chains, spare, m)
  }

  lemma OpenWhole(f: Hashing, max: nat, nodes: Nodes, heads: seq<Entry?>, free: Entry?,
                  chains: seq<Chain>, spare: Chain, m: map<Key, nat>)
    requires Whole(f, max, nodes, heads, free, chains, spare, m)
    ensures HeadsOk(heads, chains) && free == At(spare, 0) && Recycled(nodes, chains, spare)
    ensures Holds(f, max, nodes, chains, m)
  {
    assert PartOk(Heads, f, max, nodes, heads, free, chains, spare, m);
    assert PartOk(FreeList, f, max, nodes, heads, free, chains, spare, m);
    assert PartOk(Filing, f, max, nodes, heads, free, chains, spare, m);
  }

  lemma CloseWhole(f: Hashing, max: nat, nodes: Nodes, heads: seq<Entry?>, free: Entry?,
                   chains: seq<Chain>, spare: Chain, m: map<Key, nat>)
    requires HeadsOk(heads, chains) && free == At(spare, 0) && Recycled(nodes, chains, spare)
    requires Holds(f, max, nodes, chains, m)
    ensures Whole(f, max, nodes, heads, free, chains, spare, m)
  {
    forall part ensures PartOk(part, f, max, nodes, heads, free, chains, spare, m) {
      match part
      case Heads =>
      case FreeList =>
      case Filing =>
    }
  }

  /** The links after `*ptr = next`, where `ptr` is the link of `prev` or, without it, the head of a bucket. */
  function Relinked(nodes: Nodes, prev: Entry?, next: Entry?): (r: Nodes) {
    if prev == null || prev !in nodes then nodes else nodes[prev := nodes[prev].(next := next)]
  }

  function Headed(heads: seq<Entry?>, b: nat, prev: Entry?, next: Entry?): (r: seq<Entry?>)
    requires b < |heads|
  {
    if prev == null then heads[b := next] else heads
  }

  /** The entry before the `j`th of a chain, or NULL for the first. */
  function Before(chain: Chain, j: nat): Entry?
    requires j <= |chain|
  {
    if j == 0 then null else chain[j - 1]
  }

  /** An entry in a chain is an entry of the table, and no recycled one. */
  lemma Placed(f: Hashing, max: nat, nodes: Nodes, chains: seq<Chain>, spare: Chain, m: map<Key, nat>, b: nat, j: nat)
    requires Holds(f, max, nodes, chains, m) && Recycled(nodes, chains, spare) && b <= max && j < |chains[b]|
    ensures var e := chains[b][j];
            && e in nodes && e !in spare && Filed(f, max, nodes[e], b, m)
            && nodes[e].next == At(chains[b], j + 1) && InChains(chains, e)
  {
    OwnBucket(f, max, nodes, chains, m, b, j);
    forall i | 0 <= i < |spare| ensures spare[i] != chains[b][j] {
      assert !InChains(chains, spare[i]);
    }
  }

  /** Changing a bucket changes its head. */
  lemma HeadsFollow(heads: seq<Entry?>, chains: seq<Chain>, b: nat, chain: Chain, c: nat)
    requires |heads| == |chains| && b < |chains| && c < |chains|
    requires HeadOk(heads, chains, c)
    ensures HeadOk(heads[b := At(chain, 0)], chains[b := chain], c)
  {
  }

  /** Only entries of the changed bucket come in. */
  lemma BucketChanged(chains: seq<Chain>, b: nat, chain: Chain, e: Entry)
    requires b < |chains| && InChains(chains[b := chain], e)
    ensures e in chain || InChains(chains, e)
  {
    var c, j :| 0 <= c < |chains| && 0 <= j < |chains[b := chain][c]| && Seat(chains[b := chain], c, j) == e;
    assert c != b ==> Seat(chains, c, j) == e;
  }

  /** A whole table whose chain `b` changes stays whole if the recycled entries are left alone. */
  lemma WholeChanged(f: Hashing, max: nat, nodes: Nodes, heads: seq<Entry?>, free: Entry?,
                     chains: seq<Chain>, spare: Chain, m: map<Key, nat>,
                     nodes': Nodes, b: nat, chain: Chain, m': map<Key, nat>)
    requires Whole(f, max, nodes, heads, free, chains, spare, m)
    requires b <= max && Holds(f, max, nodes', chains[b := chain], m')
    requires forall e :: e in spare && e in nodes ==> Same(nodes, nodes', e)
    requires forall e :: e in chain ==> e !in spare
    ensures Whole(f, max, nodes', heads[b := At(chain, 0)], free, chains[b := chain], spare, m')
  {
    OpenWhole(f, max, nodes, heads, free, chains, spare, m);
    var heads', chains' := heads[b := At(chain, 0)], chains[b := chain];
    forall c | 0 <= c <= max ensures HeadOk(heads', chains', c) {
      assert HeadOk(heads, chains, c);
      HeadsFollow(heads, chains, b, chain, c);
    }
    forall e | InChains(chains[b := chain], e) ensures InChains(chains, e) || e !in spare {
      BucketChanged(chains, b, chain, e);
    }
    RecycledFrame(nodes, chains, spare, nodes', chains[b := chain]);
    CloseWhole(f, max, nodes', heads[b := At(chain, 0)], free, chains[b := chain], spare, m');
  }

  lemma InsertWhole(f: Hashing, max: nat, nodes: Nodes, heads: seq<Entry?>, free: Entry?,
                    chains: seq<Chain>, spare: Chain, m: map<Key, nat>, e: Entry, n: Node)
    requires Whole(f, max, nodes, heads, free, chains, spare, m)
    requires !InChains(chains, e) && e !in spare
    requires n.key !in m && n.hash == f(n.key) && n.next == null
    ensures var b := Bucket(f, max, n.key); var c := chains[b];
            var prev := Before(c, |c|);
            && (prev != null ==> prev in nodes && prev != e)
            && Whole(f, max, Relinked(nodes[e := n], prev, e), Headed(heads, b, prev, e), free,
                     chains[b := c + [e]], spare, m[n.key := n.val])
  {
    OpenWhole(f, max, nodes, heads, free, chains, spare, m);
    var b := Bucket(f, max, n.key);
    var c := chains[b];
    assert HeadOk(heads, chains, b);
    forall j | 0 <= j < |c| ensures c[j] in nodes && c[j] !in spare && c[j] != e {
      Placed(f, max, nodes, chains, spare, m, b, j);
    }
    AppendAdds(f, max, nodes, chains, m, e, n);
    WholeChanged(f, max, nodes, heads, free, chains, spare, m, Appended(nodes, c, e, n), b, c + [e], m[n.key := n.val]);
    assert Appended(nodes, c, e, n) == Relinked(nodes[e := n], Before(c, |c|), e);
    assert heads[b := At(c + [e], 0)] == Headed(heads, b, Before(c, |c|), e);
  }

  lemma OverwriteWhole(f: Hashing, max: nat, nodes: Nodes, heads: seq<Entry?>, free: Entry?,
                       chains: seq<Chain>, spare: Chain, m: map<Key, nat>, b: nat, j: nat, val: nat)
    requires Whole(f, max, nodes, heads, free, chains, spare, m) && b <= max && j < |chains[b]|
    ensures var e := chains[b][j];
            && e in nodes && nodes[e].key in m
            && Whole(f, max, nodes[e := nodes[e].(val := val)], heads, free, chains, spare, m[nodes[e].key := val])
  {
    OpenWhole(f, max, nodes, heads, free, chains, spare, m);
    var e := chains[b][j];
    Placed(f, max, nodes, chains, spare, m, b, j);
    OverwriteChanges(f, max, nodes, chains, m, b, j, val);
    RecycledFrame(nodes, chains, spare, nodes[e := nodes[e].(val := val)], chains);
    CloseWhole(f, max, nodes[e := nodes[e].(val := val)], heads, free, chains, spare, m[nodes[e].key := val]);
  }

  /** Unlinked, the entry is in no chain. */
  lemma UnlinkWhole(f: Hashing, max: nat, nodes: Nodes, heads: seq<Entry?>, free: Entry?,
                    chains: seq<Chain>, spare: Chain, m: map<Key, nat>, b: nat, j: nat)
    requires Whole(f, max, nodes, heads, free, chains, spare, m) && b <= max && j < |chains[b]|
    requires chains[b][j] in nodes
    ensures var e := chains[b][j]; var c := Without(chains[b], j);
            && !InChains(chains[b := c], e)
            && Whole(f, max, Unlinked(nodes, chains[b], j), heads[b := At(c, 0)], free,
                     chains[b := c], spare, m - {nodes[e].key})
  {
    OpenWhole(f, max, nodes, heads, free, chains, spare, m);
    var e := chains[b][j];
    var c, nodes', m' := Without(chains[b], j), Unlinked(nodes, chains[b], j), m - {nodes[e].key};
    forall i | 0 <= i < |chains[b]| ensures chains[b][i] in nodes && chains[b][i] !in spare {
      Placed(f, max, nodes, chains, spare, m, b, i);
    }
    UnlinkRemoves(f, max, nodes, chains, m, b, j);
    WholeChanged(f, max, nodes, heads, free, chains, spare, m, nodes', b, c, m');
    NotFiled(f, max, nodes', chains[b := c], m', e);
  }

  lemma RemoveWhole(f: Hashing, max: nat, nodes: Nodes, heads: seq<Entry?>, free: Entry?,
                    chains: seq<Chain>, spare: Chain, m: map<Key, nat>, b: nat, j: nat)
    requires Whole(f, max, nodes, heads, free, chains, spare, m) && b <= max && j < |chains[b]|
    ensures var e := chains[b][j]; var c := Without(chains[b], j);
            var prev := Before(chains[b], j);
            && e in nodes && nodes[e].key in m
            && (prev != null ==> prev in nodes && prev != e)
            && Whole(f, max, Relinked(nodes, prev, nodes[e].next)[e := nodes[e].(next := free)],
                     Headed(heads, b, prev, nodes[e].next), e, chains[b := c], [e] + spare, m - {nodes[e].key})
  {
    OpenWhole(f, max, nodes, heads, free, chains, spare, m);
    var e := chains[b][j];
    Placed(f, max, nodes, chains, spare, m, b, j);
    var c, nodes', m' := Without(chains[b], j), Unlinked(nodes, chains[b], j), m - {nodes[e].key};
    assert HeadOk(heads, chains, b) && ChainOk(f, max, nodes, chains[b], b, m);
    if j > 0 {
      assert KeysDiffer(nodes, chains[b], j - 1, j);
    }
    UnlinkWhole(f, max, nodes, heads, free, chains, spare, m, b, j);
    OpenWhole(f, max, nodes', heads[b := At(c, 0)], free, chains[b := c], spare, m');
    HoldsFrame(f, max, nodes', chains[b := c], m', nodes'[e := nodes[e].(next := free)]);
    RecycledPut(nodes', chains[b := c], spare, e, nodes[e].(next := free));
    assert nodes' == Relinked(nodes, Before(chains[b], j), nodes[e].next);
    assert heads[b := At(c, 0)] == Headed(heads, b, Before(chains[b], j), nodes[e].next);
    CloseWhole(f, max, nodes'[e := nodes[e].(next := free)], heads[b := At(c, 0)], e, chains[b := c], [e] + spare, m');
  }

  /** A bucket's chain starts at its head. */
  lemma EnterBucket(f: Hashing, max: nat, nodes: Nodes, heads: seq<Entry?>, free: Entry?,
                    chains: seq<Chain>, spare: Chain, m: map<Key, nat>, b: nat)
    requires Whole(f, max, nodes, heads, free, chains, spare, m) && b <= max
    ensures heads[b] == At(chains[b], 0) && Linked(nodes, chains[b])
  {
    OpenWhole(f, max, nodes, heads, free, chains, spare, m);
    assert HeadOk(heads, chains, b);
    forall j | 0 <= j < |chains[b]| ensures LinkOk(nodes, chains[b], j) {
      OwnBucket(f, max, nodes, chains, m, b, j);
    }
  }

  lemma LinkedTail(nodes: Nodes, chain: Chain)
    requires Linked(nodes, chain) && chain != []
    ensures chain[0] in nodes && nodes[chain[0]].next == At(chain[1..], 0) && Linked(nodes, chain[1..])
  {
    assert LinkOk(nodes, chain, 0);
    var rest := chain[1..];
    forall j | 0 <= j < |rest| ensures LinkOk(nodes, rest, j) {
      assert LinkOk(nodes, chain, j + 1);
    }
  }

  /** The first recycled entry is handed out. */
  lemma TakeWhole(f: Hashing, max: nat, nodes: Nodes, heads: seq<Entry?>, free: Entry?,
                  chains: seq<Chain>, spare: Chain, m: map<Key, nat>)
    requires Whole(f, max, nodes, heads, free, chains, spare, m) && free != null
    ensures spare != [] && free in nodes && !InChains(chains, free) && free !in spare[1..]
    ensures Whole(f, max, nodes, heads, nodes[free].next, chains, spare[1..], m)
  {
    OpenWhole(f, max, nodes, heads, free, chains, spare, m);
    RecycledTake(nodes, chains, spare);
    CloseWhole(f, max, nodes, heads, nodes[free].next, chains, spare[1..], m);
  }

  /** A new entry is in no list. */
  lemma FreshWhole(f: Hashing, max: nat, nodes: Nodes, heads: seq<Entry?>, free: Entry?,
                   chains: seq<Chain>, spare: Chain, m: map<Key, nat>, e: Entry, n: Node)
    requires Whole(f, max, nodes, heads, free, chains, spare, m) && e !in nodes
    ensures !InChains(chains, e) && e !in spare
    ensures Whole(f, max, nodes[e := n], heads, free, chains, spare, m)
  {
    OpenWhole(f, max, nodes, heads, free, chains, spare, m);
    forall b, i | 0 <= b <= max && 0 <= i < |chains[b]| ensures Seat(chains, b, i) != e {
      OwnBucket(f, max, nodes, chains, m, b, i);
    }
    forall i | 0 <= i < |spare| ensures spare[i] != e {
      assert LinkOk(nodes, spare, i);
    }
    HoldsFrame(f, max, nodes, chains, m, nodes[e := n]);
    RecycledFrame(nodes, chains, spare, nodes[e := n], chains);
    CloseWhole(f, max, nodes[e := n], heads, free, chains, spare, m);
  }

  /** An entry whose key is missing from the map is in no chain. */
  lemma NotFiled(f: Hashing, max: nat, nodes: Nodes, chains: seq<Chain>, m: map<Key, nat>, e: Entry)
    requires Holds(f, max, nodes, chains, m) && e in nodes && nodes[e].key !in m
    ensures !InChains(chains, e)
  {
    forall c, j | 0 <= c <= max && 0 <= j < |chains[c]| ensures Seat(chains, c, j) != e {
      OwnBucket(f, max, nodes, chains, m, c, j);
    }
  }

  lemma MapSizes(m: map<Key, nat>, k: Key, val: nat)
    ensures |m[k := val]| == |m| + (if k in m then 0 else 1)
    ensures |m - {k}| == |m| - (if k in m then 1 else 0)
  {
    assert m[k := val].Keys == m.Keys + {k};
    assert (m - {k}).Keys == m.Keys - {k};
    assert |m[k := val]| == |m[k := val].Keys| && |m - {k}| == |(m - {k}).Keys| && |m| == |m.Keys|;
  }

  // ----- the expansion

  /** Part way through an expansion: the chains still to be moved and those already filed, with the part
      of the map each holds. */
  datatype Expansion = Expansion(rest: seq<Chain>, left: map<Key, nat>, moved: seq<Chain>, filed: map<Key, nat>)

  ghost predicate Expanding(f: Hashing, nodes: Nodes, max: nat, max': nat, heads: seq<Entry?>, free: Entry?,
                            spare: Chain, s: Expansion, all: map<Key, nat>)
  {
    && Holds(f, max, nodes, s.rest, s.left) && Recycled(nodes, s.rest, spare)
    && Whole(f, max', nodes, heads, free, s.moved, spare, s.filed)
    && s.left.Keys !! s.filed.Keys && s.left + s.filed == all
  }

  lemma ExpansionStarts(f: Hashing, nodes: Nodes, max: nat, heads: seq<Entry?>, free: Entry?, chains: seq<Chain>,
                        spare: Chain, m: map<Key, nat>, max': nat, heads': seq<Entry?>, s: Expansion)
    requires Whole(f, max, nodes, heads, free, chains, spare, m)
    requires |heads'| == max' + 1 == |s.moved| && s.rest == chains && s.left == m && s.filed == map[]
    requires forall b :: 0 <= b <= max' ==> heads'[b] == null && s.moved[b] == []
    ensures Expanding(f, nodes, max, max', heads', free, spare, s, m)
  {
    OpenWhole(f, max, nodes, heads, free, chains, spare, m);
    forall e ensures !InChains(s.moved, e) {}
    forall b | 0 <= b <= max' ensures ChainOk(f, max', nodes, s.moved[b], b, map[]) {}
    forall b | 0 <= b <= max' ensures HeadOk(heads', s.moved, b) {}
    RecycledFrame(nodes, chains, spare, nodes, s.moved);
    CloseWhole(f, max', nodes, heads', free, s.moved, spare, map[]);
  }

  /** The first entry of a bucket leaves it. */
  lemma PopFront(f: Hashing, max: nat, nodes: Nodes, chains: seq<Chain>, m: map<Key, nat>, i: nat, n: Node)
    requires Holds(f, max, nodes, chains, m) && i <= max && chains[i] != []
    ensures var e := chains[i][0];
            && e in nodes && nodes[e].next == At(chains[i][1..], 0) && Filed(f, max, nodes[e], i, m)
            && Holds(f, max, nodes[e := n], chains[i := chains[i][1..]], m - {nodes[e].key})
  {
    var e := chains[i][0];
    OwnBucket(f, max, nodes, chains, m, i, 0);
    assert ChainOk(f, max, nodes, chains[i], i, m) && LinkOk(nodes, chains[i], 0);
    var chains', m' := chains[i := chains[i][1..]], m - {nodes[e].key};
    UnlinkRemoves(f, max, nodes, chains, m, i, 0);
    assert Without(chains[i], 0) == chains[i][1..];
    NotFiled(f, max, nodes, chains', m', e);
    HoldsFrame(f, max, nodes, chains', m', nodes[e := n]);
  }

  lemma PushWhole(f: Hashing, max: nat, nodes: Nodes, heads: seq<Entry?>, free: Entry?,
                  chains: seq<Chain>, spare: Chain, m: map<Key, nat>, e: Entry, n: Node)
    requires Whole(f, max, nodes, heads, free, chains, spare, m)
    requires !InChains(chains, e) && e !in spare
    requires n.key !in m && n.hash == f(n.key) && n.next == At(chains[Bucket(f, max, n.key)], 0)
    ensures var b := Bucket(f, max, n.key);
            Whole(f, max, nodes[e := n], heads[b := e], free, chains[b := [e] + chains[b]], spare, m[n.key := n.val])
  {
    OpenWhole(f, max, nodes, heads, free, chains, spare, m);
    var b := Bucket(f, max, n.key);
    forall j | 0 <= j < |chains[b]| ensures chains[b][j] !in spare {
      Placed(f, max, nodes, chains, spare, m, b, j);
    }
    PushAdds(f, max, nodes, chains, m, e, n);
    WholeChanged(f, max, nodes, heads, free, chains, spare, m, nodes[e := n], b, [e] + chains[b], m[n.key := n.val]);
  }

  /** The first entry of a bucket has moved in front of its new bucket. */
  ghost function Moved(f: Hashing, nodes: Nodes, max': nat, s: Expansion, i: nat): Expansion
    requires i < |s.rest| && s.rest[i] != [] && s.rest[i][0] in nodes && |s.moved| == max' + 1
  {
    var e := s.rest[i][0];
    var k := nodes[e].key;
    var b := Bucket(f, max', k);
    Expansion(s.rest[i := s.rest[i][1..]], s.left - {k}, s.moved[b := [e] + s.moved[b]], s.filed[k := nodes[e].val])
  }

  lemma MoveNext(f: Hashing, nodes: Nodes, max: nat, max': nat, heads: seq<Entry?>, free: Entry?,
                 spare: Chain, s: Expansion, all: map<Key, nat>, i: nat, b: nat)
    requires Expanding(f, nodes, max, max', heads, free, spare, s, all)
    requires i <= max && s.rest[i] != [] && s.rest[i][0] in nodes && b == Bucket(f, max', nodes[s.rest[i][0]].key)
    ensures var e := s.rest[i][0];
            && nodes[e].hash == f(nodes[e].key) && nodes[e].next == At(s.rest[i][1..], 0)
            && Expanding(f, nodes[e := nodes[e].(next := heads[b])], max, max', heads[b := e], free, spare,
                         Moved(f, nodes, max', s, i), all)
  {
    var e := s.rest[i][0];
    var k, n := nodes[e].key, nodes[e].(next := heads[b]);
    OpenWhole(f, max', nodes, heads, free, s.moved, spare, s.filed);
    assert HeadOk(heads, s.moved, b);
    Placed(f, max, nodes, s.rest, spare, s.left, i, 0);
    PopFront(f, max, nodes, s.rest, s.left, i, n);
    NotFiled(f, max', nodes, s.moved, s.filed, e);
    PushWhole(f, max', nodes, heads, free, s.moved, spare, s.filed, e, n);
    var rest := s.rest[i := s.rest[i][1..]];
    forall x | InChains(rest, x) ensures InChains(s.rest, x) || x !in spare {
      BucketChanged(s.rest, i, s.rest[i][1..], x);
      if x in s.rest[i][1..] {
        var j :| 0 <= j < |s.rest[i][1..]| && s.rest[i][1..][j] == x;
        Placed(f, max, nodes, s.rest, spare, s.left, i, j + 1);
      }
    }
    RecycledFrame(nodes, s.rest, spare, nodes[e := n], rest);
    assert (s.left - {k}) + s.filed[k := n.val] == all;
  }

  /** The chains before the `i`th have been emptied and the others are as they were. */
  ghost predicate EmptiedTo(chains: seq<Chain>, rest: seq<Chain>, i: nat) {
    && |rest| == |chains| && i <= |chains|
    && rest == seq(|chains|, b requires 0 <= b < |chains| => if b < i then [] else chains[b])
  }

  lemma EmptiedNext(chains: seq<Chain>, rest: seq<Chain>, i: nat, heads: seq<Entry?>)
    requires EmptiedTo(chains, rest, i) && i < |chains| && HeadsOk(heads, chains)
    ensures heads[i] == At(rest[i], 0) && EmptiedTo(chains, rest[i := []], i + 1)
  {
    assert HeadOk(heads, chains, i);
  }

  /** With every old bucket empty, the new ones hold everything. */
  lemma MovedAll(f: Hashing, nodes: Nodes, max: nat, max': nat, heads: seq<Entry?>, free: Entry?,
                 spare: Chain, s: Expansion, all: map<Key, nat>, chains: seq<Chain>)
    requires Expanding(f, nodes, max, max', heads, free, spare, s, all)
    requires EmptiedTo(chains, s.rest, max + 1)
    ensures s.filed == all
  {
    forall k ensures k !in s.left {
      assert k in s.left ==> HasKey(nodes, s.rest[Bucket(f, max, k)], k);
    }
    assert s.left == map[];
  }
}
