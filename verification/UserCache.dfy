/** The shared user cache of lib/ucache.c, updated in place. */
module UserCache {
  import opened UserNames
  import opened UserIndex
  import opened UserRename

  const UCACHE_EFULL := -3

  /** `after` is `before` with `name` in the slot that was the first without a name; every search
      finds what it found before, and `name` is found there. */
  ghost predicate Created(before: seq<string>, after: seq<string>, name: string) {
    var num := Lookup(after, name);
    && 0 < num <= |before| && before[num - 1] == "" && after == before[num - 1 := name]
    && (forall i :: 0 <= i < num - 1 ==> before[i] != "")
    && (forall q :: Lookup(after, q) == if SameName(q, name) then num else Lookup(before, q))
  }

  class UCache {
    const userid: array<string>
    const next: array<int>
    const prev: array<int>
    const hash: array<int>
    /** last occupied slot */
    var number: nat
    /** the slots of every bucket, in chain order */
    ghost var chains: seq<seq<int>>

    ghost predicate Indexed()
      reads this, userid, next, prev, hash
    {
      && next != prev && next != hash && prev != hash
      && Agrees(userid[..], next[..], prev[..], hash[..], chains)
    }

    ghost predicate Valid()
      reads this, userid, next, prev, hash
    {
      && Indexed()
      && number <= userid.Length
      && (forall i :: number <= i < userid.Length ==> userid[i] == "")
    }

    constructor (maxUsers: nat)
      ensures fresh(userid) && fresh(next) && fresh(prev) && fresh(hash)
      ensures next != prev && next != hash && prev != hash
      ensures userid.Length == next.Length == prev.Length == maxUsers && hash.Length == BUCKETS
    {
      userid := new string[maxUsers];
      next := new int[maxUsers];
      prev := new int[maxUsers];
      hash := new int[BUCKETS];
      number := 0;
      chains := [];
    }

    /** The walk to the end of a chain that `fillucache` and `setuserid` make; `names` is the table that the
        links still belong to. */
    method ChainEnd(b: nat, ghost names: seq<string>) returns (i: int)
      requires |next[..]| == |prev[..]| == |names| && b < hash.Length && |chains| == hash.Length
      requires ChainOk(names, next[..], prev[..], hash[b], b, chains[b])
      requires hash[b] != 0
      ensures chains[b] != [] && i == chains[b][|chains[b]| - 1] && 1 <= i <= next.Length
    {
      ghost var c := chains[b];
      ghost var k := 0;
      i := hash[b];
      LinkAround(names, next[..], prev[..], b, hash[b], c, 0);
      while next[i - 1] != 0
        invariant k < |c| && i == c[k] && 1 <= i <= next.Length
        decreases |c| - k
      {
        LinkAround(names, next[..], prev[..], b, hash[b], c, k);
        LastLink(names, next[..], prev[..], b, hash[b], c, k);
        i := next[i - 1];
        k := k + 1;
        LinkAround(names, next[..], prev[..], b, hash[b], c, k);
      }
      LastLink(names, next[..], prev[..], b, hash[b], c, k);
    }

    /** `fillucache`: files the name of a slot never used before at the end of its chain. */
    method FillUcache(name: string, count: nat) returns (listed: bool)
      requires Indexed() && (name != "" ==> GoodName(name) && Listed(name) && Fresh(userid[..], name))
      requires count < userid.Length && userid[count] == ""
      modifies userid, next, prev, hash, this`chains
      ensures Indexed() && userid[..] == old(userid[..])[count := name]
      ensures listed == (name != "")
    {
      ghost var names, nx, pv, hs, ch := userid[..], next[..], prev[..], hash[..], chains;
      userid[count] := name;
      var slot := count + 1;
      if name != "" {
        InsertKeeps(names, nx, pv, hs, ch, slot, name);
        var a1, a2, key := UHashKey(name);
        var b := (a1 * 26 + a2) * 256 + key;
        ghost var c := ch[b];
        if c != [] {
          LinkAround(names, nx, pv, b, hs[b], c, 0);
        }
        FirstUse(names, nx, pv, b, hs[b], c, slot);
        if hash[b] == 0 {
          hash[b] := slot;
        } else {
          var i := ChainEnd(b, names);
          next[i - 1] := slot;
          prev[slot - 1] := i;
        }
        chains := ch[b := c + [slot]];
        assert next[..] == LinkedNext(nx, c, slot) && prev[..] == LinkedPrev(pv, c, slot);
        assert hash[..] == hs[b := if c == [] then slot else hs[b]];
        return true;
      }
      assert userid[..] == names;
      return false;
    }

    /** `load_ucache`: rebuilds the index from the password file. */
    method LoadUcache(passwd: seq<string>)
      requires 0 < |passwd| == userid.Length == next.Length == prev.Length && hash.Length == BUCKETS
      requires next != prev && next != hash && prev != hash
      requires forall i :: 0 <= i < |passwd| && passwd[i] != "" ==> GoodName(passwd[i]) && Listed(passwd[i])
      requires Distinct(passwd)
      modifies this, userid, next, prev, hash
      ensures Valid() && userid[..] == passwd
    {
      forall i | 0 <= i < userid.Length { userid[i] := ""; }
      forall i | 0 <= i < hash.Length { hash[i] := 0; }
      forall i | 0 <= i < next.Length { next[i] := 0; }
      forall i | 0 <= i < prev.Length { prev[i] := 0; }
      chains := seq(BUCKETS, i => []);
      assert Indexed() by {
        EmptyAgrees(userid[..], next[..], prev[..], hash[..], chains);
      }
      var last := 0;
      for i := 0 to |passwd|
        invariant Indexed()
        invariant forall j :: 0 <= j < i ==> userid[j] == passwd[j]
        invariant forall j :: i <= j < |passwd| ==> userid[j] == ""
        invariant last < i || (last == i == 0)
        invariant forall j :: last < j < i ==> passwd[j] == ""
      {
        ghost var names := userid[..];
        var listed := FillUcache(passwd[i], i);
        assert forall j :: 0 <= j < |passwd| && j != i ==> userid[..][j] == names[j];
        if listed {
          last := i;
        }
      }
      number := last + 1;
    }

    /** `setuserid`: gives a slot a name that no other slot has. The index is kept if and only if the slot was
        not filed before; after a rename no chains agree with the links any more. */
    method SetUserId(num: int, name: string)
      requires Valid() && GoodName(name)
      requires Listed(name) ==> FreshElsewhere(userid[..], num, name)
      modifies userid, next, prev, hash, this`chains, this`number
      ensures !(0 < num <= userid.Length) ==> Valid() && userid[..] == old(userid[..])
      ensures 0 < num <= userid.Length ==>
                && userid[..] == old(userid[..])[num - 1 := name]
                && (old(Listed(userid[num - 1])) ==> !Indexable(userid[..], next[..], prev[..], hash[..]))
                && (!old(Listed(userid[num - 1])) ==> Valid())
    {
      if 0 < num <= userid.Length {
        ghost var names := userid[..];
        SetAgreesIff(names, next[..], prev[..], hash[..], chains, num, name);
        if !Listed(names[num - 1]) {
          SetKeeps(names, next[..], prev[..], hash[..], chains, num, name);
        }
        if num > number {
          number := num;
        }
        userid[num - 1] := name;
        if name != "new" {
          FileSlot(num, name, names);
        }
      }
    }

    /** The part of `setuserid` that files a slot whose name has just been written; `before` is the
        table without that name. */
    method FileSlot(num: nat, name: string, ghost before: seq<string>)
      requires next != prev && next != hash && prev != hash
      requires Agrees(before, next[..], prev[..], hash[..], chains)
      requires 0 < num <= |before| && GoodName(name) && name != "new"
      requires Assignable(next[..], chains, num, name) && Assignable(prev[..], chains, num, name)
      modifies next, prev, hash, this`chains
      ensures next[..] == old(AssignedNext(next[..], chains, num, name))
      ensures prev[..] == old(AssignedPrev(prev[..], chains, num, name))
      ensures hash[..] == old(AssignedHash(hash[..], chains, num, name))
      ensures chains == old(AssignedChains(chains, num, name))
    {
      ghost var nx, pv, hs, ch := next[..], prev[..], hash[..], chains;
      var a1, a2, key := UHashKey(name);
      var b := (a1 * 26 + a2) * 256 + key;
      ghost var c := ch[b];
      HeadOfChain(before, nx, pv, b, hs[b], c);
      if hash[b] == 0 {
        hash[b] := num;
        next[num - 1] := 0;
        prev[num - 1] := 0;
      } else {
        var i := ChainEnd(b, before);
        next[i - 1] := num;
        prev[num - 1] := i;
        next[num - 1] := 0;
      }
      chains := ch[b := c + [num]];
      assert next[..] == LinkedNext(nx, c, num) && prev[..] == LinkedPrev(pv, c, num);
    }

    /** `del_uidshm`: cuts a slot out of the chain its name is filed in. */
    method DelUidshm(num: int, name: string) returns (deleted: bool)
      requires Valid() && |name| >= 2
      modifies userid, next, prev, hash, this`chains
      ensures Valid()
      ensures deleted == (0 < num <= userid.Length && old(Filed(userid[num - 1], Bucket(name))))
      ensures userid[..] == if deleted then old(userid[..])[num - 1 := ""] else old(userid[..])
    {
      if num <= 0 || num > userid.Length {
        return false;
      }
      ghost var names, nx, pv, hs, ch := userid[..], next[..], prev[..], hash[..], chains;
      var a1, a2, key := UHashKey(name);
      var b := (a1 * 26 + a2) * 256 + key;
      var i := hash[b];
      if i <= 0 {
        HeadOfChain(names, nx, pv, b, hs[b], ch[b]);
        NotInChainNotFiled(names, ch, b, num);
        return false;
      }
      ghost var k;
      i, k := FindInChain(b, num);
      if i != num || i <= 0 {
        NotInChainNotFiled(names, ch, b, num);
        return false;
      }
      DeleteKeeps(names, nx, pv, hs, ch, b, k);
      Unlink(b, i);
      userid[i - 1] := "";
      chains := ch[b := ch[b][..k] + ch[b][k + 1..]];
      assert userid[..] == names[num - 1 := ""];
      assert Indexed();
      return true;
    }

    /** The loop of `del_uidshm` that looks for slot `num` in the chain of bucket `b`. */
    method FindInChain(b: nat, num: int) returns (i: int, ghost k: nat)
      requires |next[..]| == |prev[..]| == |userid[..]| && b < hash.Length && |chains| == hash.Length
      requires ChainOk(userid[..], next[..], prev[..], hash[b], b, chains[b])
      requires num > 0
      ensures i == num ==> k < |chains[b]| && chains[b][k] == num
      ensures i != num ==> num !in chains[b]
    {
      ghost var c := chains[b];
      k := 0;
      HeadOfChain(userid[..], next[..], prev[..], b, hash[b], c);
      i := hash[b];
      while i != num && i > 0
        invariant k <= |c| && i == (if k < |c| then c[k] else 0)
        invariant 0 <= i <= next.Length && (i == 0 ==> k == |c|)
        invariant forall j :: 0 <= j < k ==> c[j] != num
        decreases |c| - k
      {
        LinkAround(userid[..], next[..], prev[..], b, hash[b], c, k);
        i := next[i - 1];
        k := k + 1;
        if k < |c| { LinkAround(userid[..], next[..], prev[..], b, hash[b], c, k); }
      }
    }

    /** The six assignments of `del_uidshm` that take slot `i` out of the chain of bucket `b`. */
    method Unlink(b: nat, i: int)
      requires next != prev && next != hash && prev != hash
      requires next.Length == prev.Length && b < hash.Length && 1 <= i <= next.Length
      requires 0 <= next[i - 1] <= next.Length && 0 <= prev[i - 1] <= next.Length
      modifies next, prev, hash
      ensures next[..] == UnlinkedNext(old(next[..]), old(prev[..]), i)
      ensures prev[..] == UnlinkedPrev(old(next[..]), old(prev[..]), i)
      ensures hash[..] == old(hash[..])[b := if old(prev[i - 1]) == 0 then old(next[i - 1]) else old(hash[b])]
    {
      if next[i - 1] != 0 {
        if prev[i - 1] != 0 {
          next[prev[i - 1] - 1] := next[i - 1];
          prev[next[i - 1] - 1] := prev[i - 1];
        } else {
          hash[b] := next[i - 1];
          prev[next[i - 1] - 1] := 0;
        }
      } else {
        if prev[i - 1] != 0 {
          next[prev[i - 1] - 1] := 0;
        } else {
          hash[b] := 0;
        }
      }
      next[i - 1] := 0;
      prev[i - 1] := 0;
    }

    /** `searchuser`: the slot whose name is `name` ignoring case, or 0 if no slot in use has it. */
    method SearchUser(name: string) returns (num: nat)
      requires Valid() && |name| >= 2
      ensures num == Lookup(userid[..], name)
      ensures num > 0 ==> num <= userid.Length && userid[num - 1] != "" && userid[num - 1] != "new"
      ensures num > 0 ==> EqualIgnoringCase(userid[num - 1], name)
      ensures num == 0 ==> forall i :: 0 <= i < userid.Length && userid[i] != "" && userid[i] != "new" ==>
                             !EqualIgnoringCase(userid[i], name)
    {
      num := FollowChain(name);
      if num > 0 {
        SameNameMeans(userid[num - 1], name);
      } else {
        forall i | 0 <= i < userid.Length && userid[i] != "" && userid[i] != "new"
          ensures !EqualIgnoringCase(userid[i], name)
        {
          assert userid[..][i] == userid[i];
          SameNameMeans(userid[i], name);
        }
      }
    }

    /** The body of `searchuser`: follows one chain and answers for the whole table. */
    method FollowChain(name: string) returns (num: nat)
      requires Valid() && |name| >= 2
      ensures num == Lookup(userid[..], name)
    {
      var a1, a2, key := UHashKey(name);
      var b := (a1 * 26 + a2) * 256 + key;
      num := Walk(b, name);
      if num > 0 {
        LookupUnique(userid[..], name, num);
      } else {
        NotInBucketNotFound(userid[..], chains, chains[b], name);
      }
    }

    /** The loop of `searchuser` over the chain of bucket `b`. */
    method Walk(b: nat, name: string) returns (num: nat)
      requires |next[..]| == |prev[..]| == |userid[..]| && b < hash.Length && |chains| == hash.Length
      requires ChainOk(userid[..], next[..], prev[..], hash[b], b, chains[b])
      ensures num > 0 ==> num <= userid.Length && Listed(userid[num - 1]) && SameName(userid[num - 1], name)
      ensures num == 0 ==> forall j {:trigger Passed(userid[..], chains[b], j, name)} :: 0 <= j < |chains[b]| ==>
                             Passed(userid[..], chains[b], j, name)
    {
      ghost var names, c, k := userid[..], chains[b], 0;
      HeadOfChain(names, next[..], prev[..], b, hash[b], c);
      var i := hash[b];
      while i != 0
        invariant k <= |c| && i == (if k < |c| then c[k] else 0) && 0 <= i <= next.Length
        invariant i == 0 ==> k == |c|
        invariant forall j {:trigger Passed(names, c, j, name)} :: 0 <= j < k ==> Passed(names, c, j, name)
        decreases |c| - k
      {
        LinkAround(names, next[..], prev[..], b, hash[b], c, k);
        StoredNameComparison(name, userid[i - 1]);
        if StrNCaseEqual(name, userid[i - 1], IDLEN + 1) {
          return i;
        }
        assert Passed(names, c, k, name);
        i := next[i - 1];
        k := k + 1;
        if k < |c| { LinkAround(names, next[..], prev[..], b, hash[b], c, k); }
      }
      return 0;
    }

    /** `searchnewuser`: the first slot without a name, or 0 when the table is full. */
    method SearchNewUser() returns (num: nat)
      requires Valid()
      ensures num <= userid.Length
      ensures num > 0 ==> userid[num - 1] == "" && forall i :: 0 <= i < num - 1 ==> userid[i] != ""
      ensures num == 0 <==> forall i :: 0 <= i < userid.Length ==> userid[i] != ""
    {
      for i := 0 to number
        invariant forall j :: 0 <= j < i ==> userid[j] != ""
      {
        if userid[i] == "" {
          return i + 1;
        }
      }
      if number < userid.Length {
        return number + 1;
      }
      return 0;
    }

    /** The section of `create_user` that holds the cache lock. */
    method CreateUser(name: string) returns (rc: int)
      requires Valid() && GoodName(name) && Listed(name) && Fresh(userid[..], name)
      modifies userid, next, prev, hash, this`chains, this`number
      ensures Valid()
      ensures rc == if old("" in userid[..]) then 0 else UCACHE_EFULL
      ensures rc != 0 ==> userid[..] == old(userid[..])
      ensures rc == 0 ==> Created(old(userid[..]), userid[..], name)
    {
      var num := SearchNewUser();
      if num == 0 {
        return UCACHE_EFULL;
      }
      ghost var names := userid[..];
      assert names[num - 1] == "";
      SetUserId(num, name);
      forall q ensures Lookup(userid[..], q) == if SameName(q, name) then num else Lookup(names, q) {
        LookupAfterInsert(names, num, name, q);
      }
      LookupUnique(userid[..], name, num);
      return 0;
    }
  }

  lemma EmptyAgrees(names: seq<string>, next: seq<int>, prev: seq<int>, hash: seq<int>, chains: seq<seq<int>>)
    requires |next| == |prev| == |names| && |hash| == |chains| == BUCKETS
    requires forall i :: 0 <= i < |names| ==> names[i] == "" && next[i] == 0 && prev[i] == 0
    requires forall b :: 0 <= b < BUCKETS ==> hash[b] == 0 && chains[b] == []
    ensures Agrees(names, next, prev, hash, chains)
  {}
}
