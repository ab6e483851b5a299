/** What it means for the hash, the two link arrays and the name table of lib/ucache.c to agree,
    and how one insertion or deletion keeps them in agreement. Slots are numbered from 1. */
module UserIndex {
  import opened UserNames

  /** Slots with these names are filed in the hash; "new" marks a slot being taken. */
  predicate Listed(name: string) {
    name != "" && name != "new"
  }

  /** The `k`th slot of chain `c` of bucket `b`: both links are those of its place in the chain. */
  ghost predicate LinkOk(names: seq<string>, next: seq<int>, prev: seq<int>, b: nat, c: seq<int>, k: nat)
    requires |next| == |prev| == |names| && k < |c|
  {
    && 1 <= c[k] <= |names|
    && next[c[k] - 1] == (if k + 1 < |c| then c[k + 1] else 0)
    && prev[c[k] - 1] == (if k > 0 then c[k - 1] else 0)
    && Filed(names[c[k] - 1], b)
  }

  ghost predicate NoRepeat(c: seq<int>) {
    forall j, k :: 0 <= j < k < |c| ==> c[j] != c[k]
  }

  /** Bucket `b` heads a doubly linked chain through exactly the slots of `c`. */
  ghost predicate ChainOk(names: seq<string>, next: seq<int>, prev: seq<int>, head: int, b: nat, c: seq<int>)
    requires |next| == |prev| == |names|
  {
    && head == (if c == [] then 0 else c[0])
    && (forall k {:trigger LinkOk(names, next, prev, b, c, k)} :: 0 <= k < |c| ==>
          LinkOk(names, next, prev, b, c, k))
    && NoRepeat(c)
  }

  ghost predicate Filed(name: string, b: nat) {
    Listed(name) && GoodName(name) && Bucket(name) == b
  }

  ghost predicate Distinct(names: seq<string>) {
    forall i, j {:trigger SameName(names[i], names[j])} ::
      0 <= i < j < |names| && Listed(names[i]) && Listed(names[j]) ==>
      !SameName(names[i], names[j])
  }

  ghost predicate Complete(names: seq<string>, chains: seq<seq<int>>)
    requires |chains| == BUCKETS
  {
    forall i {:trigger InItsChain(names, i, chains)} :: 0 <= i < |names| && Listed(names[i]) ==>
      InItsChain(names, i, chains)
  }

  ghost predicate InItsChain(names: seq<string>, i: nat, chains: seq<seq<int>>)
    requires |chains| == BUCKETS && i < |names|
  {
    GoodName(names[i]) && i + 1 in chains[Bucket(names[i])]
  }

  ghost predicate Agrees(names: seq<string>, next: seq<int>, prev: seq<int>, hash: seq<int>,
                         chains: seq<seq<int>>)
  {
    && |next| == |prev| == |names| && |hash| == |chains| == BUCKETS
    && (forall b :: 0 <= b < BUCKETS ==> ChainOk(names, next, prev, hash[b], b, chains[b]))
    && Complete(names, chains)
    && Distinct(names)
    && Unlinked(names, next, prev)
  }

  /** Slots outside the hash link nowhere. */
  ghost predicate Unlinked(names: seq<string>, next: seq<int>, prev: seq<int>)
    requires |next| == |prev| == |names|
  {
    forall i :: 0 <= i < |names| && !Listed(names[i]) ==> next[i] == 0 && prev[i] == 0
  }

  /** No listed name of the table is `name` up to case. */
  ghost predicate Fresh(names: seq<string>, name: string) {
    forall i {:trigger SameName(names[i], name)} :: 0 <= i < |names| && Listed(names[i]) ==>
      !SameName(names[i], name)
  }

  /** The slot that holds `name`, ignoring case, or 0. */
  function Lookup(names: seq<string>, name: string): (r: nat)
    ensures r <= |names|
    ensures r > 0 ==> Listed(names[r - 1]) && SameName(names[r - 1], name)
    ensures r == 0 ==> Fresh(names, name)
  {
    if names == [] then 0
    else
      var last := |names| - 1;
      if Listed(names[last]) && SameName(names[last], name) then |names| else Lookup(names[..last], name)
  }

  lemma LookupUnique(names: seq<string>, name: string, num: nat)
    requires Distinct(names) && 0 < num <= |names|
    requires Listed(names[num - 1]) && SameName(names[num - 1], name)
    ensures Lookup(names, name) == num
  {
    var r := Lookup(names, name);
    assert SameName(names[num - 1], name);
    assert SameName(names[num - 1], names[r - 1]) && SameName(names[r - 1], names[num - 1]);
  }

  /** A new name is found in its slot and no other answer changes. */
  lemma LookupAfterInsert(names: seq<string>, num: nat, name: string, q: string)
    requires Distinct(names) && 0 < num <= |names| && !Listed(names[num - 1])
    requires Listed(name) && Fresh(names, name)
    ensures Distinct(names[num - 1 := name])
    ensures Lookup(names[num - 1 := name], q) == if SameName(q, name) then num else Lookup(names, q)
  {
    var names' := names[num - 1 := name];
    InsertDistinct(names, num, name);
    var r := Lookup(names, q);
    if SameName(q, name) {
      assert names'[num - 1] == name;
      LookupUnique(names', q, num);
    } else if r > 0 {
      assert names'[r - 1] == names[r - 1];
      LookupUnique(names', q, r);
    } else {
      forall i | 0 <= i < |names'| && Listed(names'[i]) ensures !SameName(names'[i], q) {
        assert i != num - 1 ==> !SameName(names[i], q);
      }
    }
  }

  lemma InsertDistinct(names: seq<string>, num: nat, name: string)
    requires Distinct(names) && 0 < num <= |names| && Fresh(names, name)
    ensures Distinct(names[num - 1 := name])
  {
    var names' := names[num - 1 := name];
    forall i, j | 0 <= i < j < |names'| && Listed(names'[i]) && Listed(names'[j])
      ensures !SameName(names'[i], names'[j])
    {
      assert i != num - 1 && j != num - 1 ==> !SameName(names[i], names[j]);
      assert i != num - 1 ==> !SameName(names[i], name);
      assert j != num - 1 ==> !SameName(names[j], name);
    }
  }

  /** A deleted slot is found no more and no other answer changes. */
  lemma LookupAfterDelete(names: seq<string>, num: nat, q: string)
    requires Distinct(names) && 0 < num <= |names|
    ensures Distinct(names[num - 1 := ""])
    ensures Lookup(names[num - 1 := ""], q) == if Lookup(names, q) == num then 0 else Lookup(names, q)
  {
    var names' := names[num - 1 := ""];
    var r := Lookup(names, q);
    if r > 0 && r != num {
      assert names'[r - 1] == names[r - 1];
      LookupUnique(names', q, r);
    } else {
      var r' := Lookup(names', q);
      if r' > 0 {
        assert names'[r' - 1] == names[r' - 1];
        LookupUnique(names, q, r');
      }
    }
  }

  /** Different buckets share no slot. */
  lemma ChainsDisjoint(names: seq<string>, next: seq<int>, prev: seq<int>, hash: seq<int>,
                       chains: seq<seq<int>>, b: nat, k: nat, b': nat, k': nat)
    requires Agrees(names, next, prev, hash, chains)
    requires b < BUCKETS && b' < BUCKETS && b != b' && k < |chains[b]| && k' < |chains[b']|
    ensures chains[b][k] != chains[b'][k']
  {
    assert LinkOk(names, next, prev, b, chains[b], k);
    assert LinkOk(names, next, prev, b', chains[b'], k');
  }

  // ----- insertion: the slot goes to the end of its chain

  function LinkedNext(next: seq<int>, c: seq<int>, num: int): seq<int>
    requires 1 <= num <= |next| && (c != [] ==> 1 <= c[|c| - 1] <= |next|)
  {
    if c == [] then next[num - 1 := 0] else next[c[|c| - 1] - 1 := num][num - 1 := 0]
  }

  function LinkedPrev(prev: seq<int>, c: seq<int>, num: int): seq<int>
    requires 1 <= num <= |prev|
  {
    prev[num - 1 := if c == [] then 0 else c[|c| - 1]]
  }

  lemma InsertKeeps(names: seq<string>, next: seq<int>, prev: seq<int>, hash: seq<int>,
                    chains: seq<seq<int>>, num: nat, name: string)
    requires Agrees(names, next, prev, hash, chains)
    requires 1 <= num <= |names| && !Listed(names[num - 1])
    requires Listed(name) && GoodName(name) && Fresh(names, name)
    ensures var b := Bucket(name); var c := chains[b];
            && (c != [] ==> 1 <= c[|c| - 1] <= |next|)
            && Agrees(names[num - 1 := name], LinkedNext(next, c, num), LinkedPrev(prev, c, num),
                      hash[b := if c == [] then num else hash[b]], chains[b := c + [num]])
  {
    var b := Bucket(name);
    var c := chains[b];
    if c != [] { assert LinkOk(names, next, prev, b, c, |c| - 1); }
    var names', chains' := names[num - 1 := name], chains[b := c + [num]];
    var next', prev' := LinkedNext(next, c, num), LinkedPrev(prev, c, num);
    var hash' := hash[b := if c == [] then num else hash[b]];
    forall x | 0 <= x < BUCKETS ensures ChainOk(names', next', prev', hash'[x], x, chains'[x]) {
      if x == b {
        InsertInChain(names, next, prev, hash[b], b, c, num, name);
      } else {
        InsertElsewhere(names, next, prev, hash, chains, num, name, x);
      }
    }
    InsertComplete(names, chains, num, name);
    InsertUnlinked(names, next, prev, b, hash[b], c, num, name);
    LookupAfterInsert(names, num, name, name);
  }

  lemma InsertUnlinked(names: seq<string>, next: seq<int>, prev: seq<int>, b: nat, head: int, c: seq<int>,
                       num: nat, name: string)
    requires |next| == |prev| == |names| && ChainOk(names, next, prev, head, b, c)
    requires Unlinked(names, next, prev)
    requires 1 <= num <= |names| && Listed(name) && (c != [] ==> 1 <= c[|c| - 1] <= |next|)
    ensures Unlinked(names[num - 1 := name], LinkedNext(next, c, num), LinkedPrev(prev, c, num))
  {
    if c != [] { assert LinkOk(names, next, prev, b, c, |c| - 1); }
  }

  lemma InsertComplete(names: seq<string>, chains: seq<seq<int>>, num: nat, name: string)
    requires |chains| == BUCKETS && Complete(names, chains)
    requires 1 <= num <= |names| && GoodName(name)
    ensures Complete(names[num - 1 := name], chains[Bucket(name) := chains[Bucket(name)] + [num]])
  {
    var b := Bucket(name);
    var names', chains' := names[num - 1 := name], chains[b := chains[b] + [num]];
    assert chains'[b][|chains[b]|] == num;
    forall i | 0 <= i < |names'| && Listed(names'[i])
      ensures InItsChain(names', i, chains')
    {
      if i != num - 1 {
        assert InItsChain(names, i, chains);
      }
    }
  }

  lemma InsertInChain(names: seq<string>, next: seq<int>, prev: seq<int>, head: int, b: nat, c: seq<int>,
                      num: nat, name: string)
    requires |next| == |prev| == |names| && ChainOk(names, next, prev, head, b, c)
    requires 1 <= num <= |names| && !Listed(names[num - 1]) && Filed(name, b)
    requires c != [] ==> 1 <= c[|c| - 1] <= |next|
    ensures ChainOk(names[num - 1 := name], LinkedNext(next, c, num), LinkedPrev(prev, c, num),
                    if c == [] then num else head, b, c + [num])
  {
    var names', next', prev' := names[num - 1 := name], LinkedNext(next, c, num), LinkedPrev(prev, c, num);
    var c' := c + [num];
    forall k | 0 <= k < |c'| ensures LinkOk(names', next', prev', b, c', k) {
      if k < |c| {
        InsertLink(names, next, prev, head, b, c, num, name, k);
      }
    }
    assert NoRepeat(c') by {
      forall k | 0 <= k < |c| ensures c[k] != num {
        assert LinkOk(names, next, prev, b, c, k);
      }
    }
  }

  /** The `k`th slot of the chain keeps correct links. */
  lemma InsertLink(names: seq<string>, next: seq<int>, prev: seq<int>, head: int, b: nat, c: seq<int>,
                   num: nat, name: string, k: nat)
    requires |next| == |prev| == |names| && ChainOk(names, next, prev, head, b, c) && k < |c|
    requires 1 <= num <= |names| && !Listed(names[num - 1])
    requires 1 <= c[|c| - 1] <= |next|
    ensures LinkOk(names[num - 1 := name], LinkedNext(next, c, num), LinkedPrev(prev, c, num), b, c + [num], k)
  {
    assert LinkOk(names, next, prev, b, c, k);
    if k < |c| - 1 { assert c[k] != c[|c| - 1]; }
  }

  lemma InsertElsewhere(names: seq<string>, next: seq<int>, prev: seq<int>, hash: seq<int>,
                        chains: seq<seq<int>>, num: nat, name: string, x: nat)
    requires Agrees(names, next, prev, hash, chains)
    requires 1 <= num <= |names| && !Listed(names[num - 1]) && GoodName(name)
    requires x < BUCKETS && x != Bucket(name)
    requires var c := chains[Bucket(name)]; c != [] ==> 1 <= c[|c| - 1] <= |next|
    ensures var c := chains[Bucket(name)];
            ChainOk(names[num - 1 := name], LinkedNext(next, c, num), LinkedPrev(prev, c, num),
                    hash[x], x, chains[x])
  {
    var c, d := chains[Bucket(name)], chains[x];
    var names', next', prev' := names[num - 1 := name], LinkedNext(next, c, num), LinkedPrev(prev, c, num);
    forall k | 0 <= k < |d| ensures LinkOk(names', next', prev', x, d, k) {
      assert LinkOk(names, next, prev, x, d, k);
      if c != [] {
        ChainsDisjoint(names, next, prev, hash, chains, Bucket(name), |c| - 1, x, k);
      }
    }
  }

  // ----- deletion: the slot is cut out of its chain

  function UnlinkedNext(next: seq<int>, prev: seq<int>, num: int): seq<int>
    requires 1 <= num <= |next| == |prev| && 0 <= prev[num - 1] <= |next|
  {
    (if prev[num - 1] != 0 then next[prev[num - 1] - 1 := next[num - 1]] else next)[num - 1 := 0]
  }

  function UnlinkedPrev(next: seq<int>, prev: seq<int>, num: int): seq<int>
    requires 1 <= num <= |next| == |prev| && 0 <= next[num - 1] <= |prev|
  {
    (if next[num - 1] != 0 then prev[next[num - 1] - 1 := prev[num - 1]] else prev)[num - 1 := 0]
  }

  lemma DeleteKeeps(names: seq<string>, next: seq<int>, prev: seq<int>, hash: seq<int>,
                    chains: seq<seq<int>>, b: nat, k: nat)
    requires Agrees(names, next, prev, hash, chains) && b < BUCKETS && k < |chains[b]|
    ensures var c := chains[b]; var num := c[k];
            && 1 <= num <= |names| && Filed(names[num - 1], b)
            && 0 <= prev[num - 1] <= |next| && 0 <= next[num - 1] <= |prev|
            && Agrees(names[num - 1 := ""], UnlinkedNext(next, prev, num), UnlinkedPrev(next, prev, num),
                      hash[b := if prev[num - 1] == 0 then next[num - 1] else hash[b]],
                      chains[b := c[..k] + c[k + 1..]])
  {
    var c := chains[b];
    var num := c[k];
    LinkAround(names, next, prev, b, hash[b], c, k);
    var names', chains' := names[num - 1 := ""], chains[b := c[..k] + c[k + 1..]];
    var next', prev' := UnlinkedNext(next, prev, num), UnlinkedPrev(next, prev, num);
    var hash' := hash[b := if prev[num - 1] == 0 then next[num - 1] else hash[b]];
    forall x | 0 <= x < BUCKETS ensures ChainOk(names', next', prev', hash'[x], x, chains'[x]) {
      if x == b {
        DeleteInChain(names, next, prev, hash[b], b, c, k);
      } else {
        DeleteElsewhere(names, next, prev, hash, chains, b, k, x);
      }
    }
    DeleteComplete(names, chains, b, k);
    DeleteUnlinked(names, next, prev, b, hash[b], c, k);
    LookupAfterDelete(names, num, "");
  }

  lemma DeleteComplete(names: seq<string>, chains: seq<seq<int>>, b: nat, k: nat)
    requires |chains| == BUCKETS && Complete(names, chains)
    requires b < BUCKETS && k < |chains[b]| && 1 <= chains[b][k] <= |names|
    ensures Complete(names[chains[b][k] - 1 := ""], chains[b := chains[b][..k] + chains[b][k + 1..]])
  {
    var c := chains[b];
    var names', chains' := names[c[k] - 1 := ""], chains[b := c[..k] + c[k + 1..]];
    forall i | 0 <= i < |names'| && Listed(names'[i])
      ensures InItsChain(names', i, chains')
    {
      assert InItsChain(names, i, chains);
      if Bucket(names'[i]) == b {
        var j :| 0 <= j < |c| && c[j] == i + 1;
        assert chains'[b][if j < k then j else j - 1] == i + 1;
      }
    }
  }

  lemma DeleteUnlinked(names: seq<string>, next: seq<int>, prev: seq<int>, b: nat, head: int, c: seq<int>, k: nat)
    requires |next| == |prev| == |names| && ChainOk(names, next, prev, head, b, c) && k < |c|
    requires Unlinked(names, next, prev)
    requires 1 <= c[k] <= |names| && 0 <= prev[c[k] - 1] <= |next| && 0 <= next[c[k] - 1] <= |prev|
    ensures Unlinked(names[c[k] - 1 := ""], UnlinkedNext(next, prev, c[k]), UnlinkedPrev(next, prev, c[k]))
  {
    LinkAround(names, next, prev, b, head, c, k);
  }

  lemma LinkAround(names: seq<string>, next: seq<int>, prev: seq<int>, b: nat, head: int, c: seq<int>, k: nat)
    requires |next| == |prev| == |names| && ChainOk(names, next, prev, head, b, c) && k < |c|
    ensures LinkOk(names, next, prev, b, c, k)
    ensures k > 0 ==> LinkOk(names, next, prev, b, c, k - 1)
    ensures k + 1 < |c| ==> LinkOk(names, next, prev, b, c, k + 1)
    ensures 0 <= next[c[k] - 1] <= |names| && 0 <= prev[c[k] - 1] <= |names|
  {
    assert LinkOk(names, next, prev, b, c, k);
    if k > 0 { assert LinkOk(names, next, prev, b, c, k - 1); }
    if k + 1 < |c| { assert LinkOk(names, next, prev, b, c, k + 1); }
  }

  lemma DeleteInChain(names: seq<string>, next: seq<int>, prev: seq<int>, head: int, b: nat, c: seq<int>, k: nat)
    requires |next| == |prev| == |names| && ChainOk(names, next, prev, head, b, c) && k < |c|
    requires 1 <= c[k] <= |names| && 0 <= prev[c[k] - 1] <= |next| && 0 <= next[c[k] - 1] <= |prev|
    ensures ChainOk(names[c[k] - 1 := ""], UnlinkedNext(next, prev, c[k]), UnlinkedPrev(next, prev, c[k]),
                    if prev[c[k] - 1] == 0 then next[c[k] - 1] else head, b, c[..k] + c[k + 1..])
  {
    var num := c[k];
    var c' := c[..k] + c[k + 1..];
    var names', next', prev' := names[num - 1 := ""], UnlinkedNext(next, prev, num), UnlinkedPrev(next, prev, num);
    LinkAround(names, next, prev, b, head, c, k);
    forall j | 0 <= j < |c'| ensures LinkOk(names', next', prev', b, c', j) {
      DeleteLink(names, next, prev, head, b, c, k, if j < k then j else j + 1);
    }
    assert NoRepeat(c') by {
      forall i, j | 0 <= i < j < |c'| ensures c'[i] != c'[j] {
        assert c'[i] == c[if i < k then i else i + 1] && c'[j] == c[if j < k then j else j + 1];
      }
    }
  }

  /** The `i`th slot of the chain, other than the deleted one, keeps correct links. */
  lemma DeleteLink(names: seq<string>, next: seq<int>, prev: seq<int>, head: int, b: nat, c: seq<int>,
                   k: nat, i: nat)
    requires |next| == |prev| == |names| && ChainOk(names, next, prev, head, b, c)
    requires k < |c| && i < |c| && i != k
    requires 1 <= c[k] <= |names| && 0 <= prev[c[k] - 1] <= |next| && 0 <= next[c[k] - 1] <= |prev|
    ensures LinkOk(names[c[k] - 1 := ""], UnlinkedNext(next, prev, c[k]), UnlinkedPrev(next, prev, c[k]),
                   b, c[..k] + c[k + 1..], if i < k then i else i - 1)
  {
    LinkAround(names, next, prev, b, head, c, k);
    LinkAround(names, next, prev, b, head, c, i);
    assert i < k ==> c[i] != c[k];
    assert k < i ==> c[k] != c[i];
    assert k > 0 && i < k - 1 ==> c[i] != c[k - 1];
    assert k > 0 && i > k - 1 ==> c[k - 1] != c[i];
    assert k + 1 < |c| && i < k + 1 ==> c[i] != c[k + 1];
    assert k + 1 < |c| && i > k + 1 ==> c[k + 1] != c[i];
  }

  lemma DeleteElsewhere(names: seq<string>, next: seq<int>, prev: seq<int>, hash: seq<int>,
                        chains: seq<seq<int>>, b: nat, k: nat, x: nat)
    requires Agrees(names, next, prev, hash, chains) && b < BUCKETS && k < |chains[b]|
    requires x < BUCKETS && x != b
    requires var num := chains[b][k];
             1 <= num <= |names| && 0 <= prev[num - 1] <= |next| && 0 <= next[num - 1] <= |prev|
    ensures var num := chains[b][k];
            ChainOk(names[num - 1 := ""], UnlinkedNext(next, prev, num), UnlinkedPrev(next, prev, num),
                    hash[x], x, chains[x])
  {
    var c, d := chains[b], chains[x];
    var num := c[k];
    var names', next', prev' := names[num - 1 := ""], UnlinkedNext(next, prev, num), UnlinkedPrev(next, prev, num);
    LinkAround(names, next, prev, b, hash[b], c, k);
    forall j | 0 <= j < |d| ensures LinkOk(names', next', prev', x, d, j) {
      assert LinkOk(names, next, prev, x, d, j);
      ChainsDisjoint(names, next, prev, hash, chains, b, k, x, j);
      if k > 0 { ChainsDisjoint(names, next, prev, hash, chains, b, k - 1, x, j); }
      if k + 1 < |c| { ChainsDisjoint(names, next, prev, hash, chains, b, k + 1, x, j); }
    }
  }

  lemma HeadOfChain(names: seq<string>, next: seq<int>, prev: seq<int>, b: nat, head: int, c: seq<int>)
    requires |next| == |prev| == |names| && ChainOk(names, next, prev, head, b, c)
    ensures if c == [] then head == 0 else head == c[0] && 1 <= head <= |names|
  {
    if c != [] { assert LinkOk(names, next, prev, b, c, 0); }
  }

  /** A slot without successor ends its chain. */
  lemma LastLink(names: seq<string>, next: seq<int>, prev: seq<int>, b: nat, head: int, c: seq<int>, k: nat)
    requires |next| == |prev| == |names| && ChainOk(names, next, prev, head, b, c) && k < |c|
    requires 1 <= c[k] <= |names|
    ensures k + 1 < |c| <==> next[c[k] - 1] != 0
  {
    LinkAround(names, next, prev, b, head, c, k);
  }

  /** Putting an unlisted name in an unlisted slot leaves the index alone. */
  lemma UnlistedAgrees(names: seq<string>, next: seq<int>, prev: seq<int>, hash: seq<int>,
                       chains: seq<seq<int>>, i: nat, name: string)
    requires Agrees(names, next, prev, hash, chains)
    requires i < |names| && !Listed(names[i]) && !Listed(name)
    ensures Agrees(names[i := name], next, prev, hash, chains)
  {
    var names' := names[i := name];
    forall b | 0 <= b < BUCKETS ensures ChainOk(names', next, prev, hash[b], b, chains[b]) {
      UnlistedChainOk(names, next, prev, hash[b], b, chains[b], i, name);
    }
    forall j | 0 <= j < |names'| && Listed(names'[j]) ensures InItsChain(names', j, chains) {
      assert InItsChain(names, j, chains);
    }
    forall j, k | 0 <= j < k < |names'| && Listed(names'[j]) && Listed(names'[k])
      ensures !SameName(names'[j], names'[k])
    {
      assert !SameName(names[j], names[k]);
    }
  }

  lemma UnlistedChainOk(names: seq<string>, next: seq<int>, prev: seq<int>, head: int, b: nat, c: seq<int>,
                        i: nat, name: string)
    requires |next| == |prev| == |names| && ChainOk(names, next, prev, head, b, c)
    requires i < |names| && !Listed(names[i])
    ensures ChainOk(names[i := name], next, prev, head, b, c)
  {
    var names' := names[i := name];
    forall k | 0 <= k < |c| ensures LinkOk(names', next, prev, b, c, k) {
      assert LinkOk(names, next, prev, b, c, k);
    }
  }

  /** The `k`th slot of chain `c` holds another name. */
  ghost predicate Passed(names: seq<string>, c: seq<int>, k: nat, name: string)
    requires k < |c|
  {
    1 <= c[k] <= |names| && !SameName(names[c[k] - 1], name)
  }

  /** A name that no slot of its bucket holds is nowhere in the table. */
  lemma NotInBucketNotFound(names: seq<string>, chains: seq<seq<int>>, c: seq<int>, name: string)
    requires |chains| == BUCKETS && Complete(names, chains)
    requires |name| >= 2 && c == chains[Bucket(name)]
    requires forall k {:trigger Passed(names, c, k, name)} :: 0 <= k < |c| ==> Passed(names, c, k, name)
    ensures Lookup(names, name) == 0
  {
    forall i | 0 <= i < |names| && Listed(names[i]) ensures !SameName(names[i], name) {
      assert InItsChain(names, i, chains);
      NotInBucketNotSame(names, chains, c, name, i);
    }
  }

  lemma NotInBucketNotSame(names: seq<string>, chains: seq<seq<int>>, c: seq<int>, name: string, i: nat)
    requires |chains| == BUCKETS && |name| >= 2 && c == chains[Bucket(name)]
    requires forall k {:trigger Passed(names, c, k, name)} :: 0 <= k < |c| ==> Passed(names, c, k, name)
    requires i < |names| && InItsChain(names, i, chains)
    ensures !SameName(names[i], name)
  {
    var b := Bucket(names[i]);
    if b == Bucket(name) {
      var k :| 0 <= k < |c| && c[k] == i + 1;
      assert Passed(names, c, k, name);
    } else {
      SameNameSameBucket(name, names[i]);
      assert SameName(names[i], name) <==> SameName(name, names[i]);
    }
  }

  lemma NotInChainNotFiled(names: seq<string>, chains: seq<seq<int>>, b: nat, num: nat)
    requires |chains| == BUCKETS && Complete(names, chains) && b < BUCKETS
    requires 0 < num <= |names| && num !in chains[b]
    ensures !Filed(names[num - 1], b)
  {
    if Listed(names[num - 1]) {
      assert InItsChain(names, num - 1, chains);
    }
  }

  /** What `fillucache` leaves unwritten is already zero. */
  lemma FirstUse(names: seq<string>, next: seq<int>, prev: seq<int>, b: nat, head: int, c: seq<int>, num: nat)
    requires |next| == |prev| == |names| && ChainOk(names, next, prev, head, b, c)
    requires 1 <= num <= |names| && !Listed(names[num - 1]) && Unlinked(names, next, prev)
    ensures c == [] ==> LinkedNext(next, c, num) == next && LinkedPrev(prev, c, num) == prev
    ensures c != [] ==> 1 <= c[|c| - 1] <= |next| && LinkedNext(next, c, num) == next[c[|c| - 1] - 1 := num]
  {
    assert next[num - 1] == 0 && prev[num - 1] == 0;
    if c != [] {
      assert LinkOk(names, next, prev, b, c, |c| - 1);
    }
  }
}
