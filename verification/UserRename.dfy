/** When `setuserid` of lib/ucache.c keeps the index: exactly for slots that are not filed yet. A slot that
    already has a name, as on a rename, stays in its old chain. */
module UserRename {
  import opened UserNames
  import opened UserIndex

  /** The links of slots when slot `num` is given `name`; "new" is not filed. */
  function AssignedNext(next: seq<int>, chains: seq<seq<int>>, num: int, name: string): seq<int>
    requires Assignable(next, chains, num, name)
  {
    if name == "new" then next else LinkedNext(next, chains[Bucket(name)], num)
  }

  function AssignedPrev(prev: seq<int>, chains: seq<seq<int>>, num: int, name: string): seq<int>
    requires Assignable(prev, chains, num, name)
  {
    if name == "new" then prev else LinkedPrev(prev, chains[Bucket(name)], num)
  }

  function AssignedHash(hash: seq<int>, chains: seq<seq<int>>, num: int, name: string): seq<int>
    requires |hash| == |chains| == BUCKETS && GoodName(name)
  {
    var b := Bucket(name);
    if name != "new" && chains[b] == [] then hash[b := num] else hash
  }

  predicate Assignable(links: seq<int>, chains: seq<seq<int>>, num: int, name: string) {
    && |chains| == BUCKETS && GoodName(name) && 1 <= num <= |links|
    && (var c := chains[Bucket(name)]; c != [] ==> 1 <= c[|c| - 1] <= |links|)
  }

  /** No other slot has the name up to case. */
  ghost predicate FreshElsewhere(names: seq<string>, num: int, name: string) {
    forall i {:trigger SameName(names[i], name)} :: 0 <= i < |names| && i != num - 1 && Listed(names[i]) ==>
      !SameName(names[i], name)
  }

  /** Some chains agree with the table and the links. */
  ghost predicate Indexable(names: seq<string>, next: seq<int>, prev: seq<int>, hash: seq<int>) {
    exists chains :: Agrees(names, next, prev, hash, chains)
  }

  lemma AlwaysAssignable(names: seq<string>, next: seq<int>, prev: seq<int>, hash: seq<int>,
                         chains: seq<seq<int>>, num: int, name: string)
    requires Agrees(names, next, prev, hash, chains) && GoodName(name) && 1 <= num <= |names|
    ensures Assignable(next, chains, num, name) && Assignable(prev, chains, num, name)
  {
    var b := Bucket(name);
    var c := chains[b];
    assert ChainOk(names, next, prev, hash[b], b, c);
    if c != [] {
      LinkAround(names, next, prev, b, hash[b], c, |c| - 1);
    }
  }

  /** A chain that starts as an old one did, over links unchanged before its `k`th slot, reaches that slot. */
  lemma {:induction false} SameWalk(names: seq<string>, next: seq<int>, prev: seq<int>, head: int, b: nat, c: seq<int>,
                                    names': seq<string>, next': seq<int>, prev': seq<int>, d: seq<int>, k: nat)
    requires |next| == |prev| == |names| == |next'| == |prev'| == |names'|
    requires ChainOk(names, next, prev, head, b, c) && ChainOk(names', next', prev', head, b, d) && k < |c|
    requires forall j :: 0 <= j < k ==> 1 <= c[j] <= |next| && next'[c[j] - 1] == next[c[j] - 1]
    ensures k < |d| && d[k] == c[k]
    ensures k > 0 ==> d[k - 1] == c[k - 1]
  {
    LinkAround(names, next, prev, b, head, c, k);
    if k > 0 {
      SameWalk(names, next, prev, head, b, c, names', next', prev', d, k - 1);
      LinkAround(names', next', prev', b, head, d, k - 1);
    }
  }

  /** A name put over another one is not where its links lead. */
  lemma RenamedDisagrees(names: seq<string>, next: seq<int>, prev: seq<int>, hash: seq<int>,
                         chains: seq<seq<int>>, num: nat, name: string, chains': seq<seq<int>>)
    requires Agrees(names, next, prev, hash, chains) && GoodName(name)
    requires 1 <= num <= |names| && Listed(names[num - 1])
    requires Assignable(next, chains, num, name) && Assignable(prev, chains, num, name)
    ensures !Agrees(names[num - 1 := name], AssignedNext(next, chains, num, name),
                    AssignedPrev(prev, chains, num, name),
                    AssignedHash(hash, chains, num, name), chains')
  {
    var names' := names[num - 1 := name];
    var next', prev' := AssignedNext(next, chains, num, name), AssignedPrev(prev, chains, num, name);
    var hash' := AssignedHash(hash, chains, num, name);
    assert InItsChain(names, num - 1, chains);
    var b := Bucket(names[num - 1]);
    var c := chains[b];
    var k :| 0 <= k < |c| && c[k] == num;
    OldChainWalk(names, next, prev, hash, chains, num, name, b, k);
    LinkAround(names, next, prev, b, hash[b], c, k);
    LastOfChain(names, next, prev, hash[b], b, c, k);
    if Agrees(names', next', prev', hash', chains') {
      assert ChainOk(names', next', prev', hash'[b], b, chains'[b]);
      SameWalk(names, next, prev, hash[b], b, c, names', next', prev', chains'[b], k);
      LinkAround(names', next', prev', b, hash'[b], chains'[b], k);
      assert false;
    }
  }

  /** The slots before `num` in its old chain keep their links, and so does the head. */
  lemma OldChainWalk(names: seq<string>, next: seq<int>, prev: seq<int>, hash: seq<int>,
                     chains: seq<seq<int>>, num: nat, name: string, b: nat, k: nat)
    requires Agrees(names, next, prev, hash, chains) && b < BUCKETS && k < |chains[b]| && chains[b][k] == num
    requires Assignable(next, chains, num, name) && Assignable(prev, chains, num, name)
    ensures AssignedHash(hash, chains, num, name)[b] == hash[b]
    ensures forall j :: 0 <= j < k ==>
              && 1 <= chains[b][j] <= |next|
              && AssignedNext(next, chains, num, name)[chains[b][j] - 1] == next[chains[b][j] - 1]
  {
    var c := chains[b];
    assert ChainOk(names, next, prev, hash[b], b, c);
    forall j | 0 <= j < k
      ensures 1 <= c[j] <= |next| && AssignedNext(next, chains, num, name)[c[j] - 1] == next[c[j] - 1]
    {
      LinkAround(names, next, prev, b, hash[b], c, j);
      OldSlotApart(names, next, prev, hash, chains, num, name, b, k, j);
    }
  }

  /** Such a slot is neither `num` nor the last of the new chain. */
  lemma OldSlotApart(names: seq<string>, next: seq<int>, prev: seq<int>, hash: seq<int>,
                     chains: seq<seq<int>>, num: nat, name: string, b: nat, k: nat, j: nat)
    requires Agrees(names, next, prev, hash, chains) && GoodName(name)
    requires b < BUCKETS && j < k < |chains[b]| && chains[b][k] == num
    ensures chains[b][j] != num
    ensures var d := chains[Bucket(name)]; d != [] ==> chains[b][j] != d[|d| - 1]
  {
    var c, d := chains[b], chains[Bucket(name)];
    assert ChainOk(names, next, prev, hash[b], b, c);
    assert c[j] != c[k];
    if d != [] {
      if b == Bucket(name) {
        assert c[j] != c[|c| - 1];
      } else {
        ChainsDisjoint(names, next, prev, hash, chains, b, j, Bucket(name), |d| - 1);
      }
    }
  }

  lemma LastOfChain(names: seq<string>, next: seq<int>, prev: seq<int>, head: int, b: nat, c: seq<int>, k: nat)
    requires |next| == |prev| == |names| && ChainOk(names, next, prev, head, b, c) && k < |c|
    ensures 1 <= c[|c| - 1] && (k > 0 ==> c[|c| - 1] != c[k - 1])
  {
    LinkAround(names, next, prev, b, head, c, |c| - 1);
  }

  /** After `setuserid` some chains agree with the arrays if and only if the slot had no name that was filed. */
  lemma SetAgreesIff(names: seq<string>, next: seq<int>, prev: seq<int>, hash: seq<int>,
                     chains: seq<seq<int>>, num: nat, name: string)
    requires Agrees(names, next, prev, hash, chains) && GoodName(name) && 1 <= num <= |names|
    requires Listed(name) ==> FreshElsewhere(names, num, name)
    ensures Assignable(next, chains, num, name) && Assignable(prev, chains, num, name)
    ensures Indexable(names[num - 1 := name], AssignedNext(next, chains, num, name),
                      AssignedPrev(prev, chains, num, name),
                      AssignedHash(hash, chains, num, name))
            <==> !Listed(names[num - 1])
  {
    AlwaysAssignable(names, next, prev, hash, chains, num, name);
    if Listed(names[num - 1]) {
      var names', hash' := names[num - 1 := name], AssignedHash(hash, chains, num, name);
      var next', prev' := AssignedNext(next, chains, num, name), AssignedPrev(prev, chains, num, name);
      forall chains' ensures !Agrees(names', next', prev', hash', chains') {
        RenamedDisagrees(names, next, prev, hash, chains, num, name, chains');
      }
    } else {
      SetKeeps(names, next, prev, hash, chains, num, name);
    }
  }

  /** The chains after `setuserid` on a slot that was not filed. */
  function AssignedChains(chains: seq<seq<int>>, num: int, name: string): seq<seq<int>>
    requires |chains| == BUCKETS && GoodName(name)
  {
    if name == "new" then chains else chains[Bucket(name) := chains[Bucket(name)] + [num]]
  }

  lemma SetKeeps(names: seq<string>, next: seq<int>, prev: seq<int>, hash: seq<int>,
                 chains: seq<seq<int>>, num: nat, name: string)
    requires Agrees(names, next, prev, hash, chains) && GoodName(name) && 1 <= num <= |names|
    requires Listed(name) ==> FreshElsewhere(names, num, name)
    requires !Listed(names[num - 1])
    ensures Assignable(next, chains, num, name) && Assignable(prev, chains, num, name)
    ensures Agrees(names[num - 1 := name], AssignedNext(next, chains, num, name), AssignedPrev(prev, chains, num, name),
                   AssignedHash(hash, chains, num, name), AssignedChains(chains, num, name))
  {
    AlwaysAssignable(names, next, prev, hash, chains, num, name);
    if name == "new" {
      UnlistedAgrees(names, next, prev, hash, chains, num - 1, name);
    } else {
      InsertKeeps(names, next, prev, hash, chains, num, name);
      assert hash[Bucket(name) := hash[Bucket(name)]] == hash;
    }
  }
}
