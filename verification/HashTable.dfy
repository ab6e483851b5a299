/** The growing hash table of lib/hash.c: an array of chains, recycled entries and an iterator, proved to
    be a map from keys to values. */
module HashTable {
  import opened MachineInts
  import opened HashChains

  const DEFAULT_MAX: u32 := 15

  class Table {
    var count: nat
    var max: u32
    var buckets: array<Entry?>
    var free: Entry?
    const func: Hashing

    ghost var repr: set<Entry>
    ghost var chains: seq<Chain>
    ghost var spare: Chain
    ghost var contents: map<Key, nat>

    ghost function Nodes(): Nodes
      reads this`repr, repr
    {
      map e | e in repr :: Node(e.next, e.key, e.hash, e.val)
    }

    /** Everything but the bound on `count`, which an insertion breaks until the expansion. */
    ghost predicate Linked()
      reads this, repr, buckets
    {
      Whole(func, max, Nodes(), buckets[..], free, chains, spare, contents) && count == |contents|
    }

    ghost predicate Valid()
      reads this, repr, buckets
    {
      Linked() && count <= max
    }

    /** `hash_create` */
    constructor (max: u32, func: Hashing)
      requires max < 0x7FFF_FFFF
      ensures Valid() && contents == map[] && fresh(buckets) && repr == {}
      ensures this.func == func && this.max == if max == 0 then DEFAULT_MAX else max
    {
      var m := if max == 0 then DEFAULT_MAX else max;
      this.count, this.max, this.free, this.func := 0, m, null, func;
      this.buckets := new Entry?[m + 1](_ => null);
      repr, chains, spare, contents := {}, seq(m + 1, _ => []), [], map[];
    }

    /** The search of `find_entry`: the entry of `key` or NULL, and the entry before it in its chain, NULL
        for the head of bucket `b`. */
    method Search(key: Key) returns (b: nat, prev: Entry?, entry: Entry?, ghost j: nat)
      requires Linked()
      ensures b == Bucket(func, max, key) && j <= |chains[b]| && entry == At(chains[b], j)
      ensures prev == Before(chains[b], j)
      ensures entry == null <==> key !in contents
      ensures entry != null ==> entry in repr && entry.key == key && entry.val == contents[key]
      ensures prev != null ==> prev in repr
    {
      b := Bucket(func, max, key);
      ghost var c := chains[b];
      OpenWhole(func, max, Nodes(), buckets[..], free, chains, spare, contents);
      assert HeadOk(buckets[..], chains, b) && ChainOk(func, max, Nodes(), c, b, contents);
      prev, entry, j := null, buckets[b], 0;
      while entry != null && !(entry.hash == func(key) && entry.key == key)
        invariant 0 <= j <= |c| && entry == At(c, j)
        invariant prev == Before(c, j)
        invariant forall i :: 0 <= i < j ==> c[i] in Nodes() && Nodes()[c[i]].key != key
        decreases |c| - j
      {
        assert EntryOk(func, max, Nodes(), c, b, contents, j);
        prev, entry, j := entry, entry.next, j + 1;
      }
      assert j < |c| ==> EntryOk(func, max, Nodes(), c, b, contents, j);
      FoundInChain(func, max, Nodes(), chains, contents, key, j);
      if j > 0 {
        OwnBucket(func, max, Nodes(), chains, contents, b, j - 1);
      }
    }

    /** `hash_get`: map lookup, NULL for keys that are not there. */
    method Get(key: Key) returns (val: nat)
      requires Valid()
      ensures val == if key in contents then contents[key] else 0
    {
      var b, prev, entry, j := Search(key);
      val := if entry != null then entry.val else 0;
    }

    /** An unused entry, a recycled one if there is one. */
    method TakeEntry() returns (entry: Entry)
      requires Linked()
      modifies this`free, this`spare, this`repr
      ensures Linked() && !InChains(chains, entry) && entry !in spare
      ensures entry in old(repr) || fresh(entry)
      ensures repr == old(repr) + {entry}
    {
      ghost var nodes := Nodes();
      if free != null {
        TakeWhole(func, max, nodes, buckets[..], free, chains, spare, contents);
        entry := free;
        free := entry.next;
        spare := spare[1..];
        assert repr == old(repr) + {entry};
        assert Nodes() == nodes;
      } else {
        entry := new Entry();
        FreshWhole(func, max, nodes, buckets[..], free, chains, spare, contents, entry,
                   Node(entry.next, entry.key, entry.hash, entry.val));
        repr := repr + {entry};
        assert Nodes() == nodes[entry := Node(entry.next, entry.key, entry.hash, entry.val)];
      }
    }

    /** The fields of an entry are set. */
    method SetFields(entry: Entry, n: Node)
      requires entry in repr
      modifies entry
      ensures Nodes() == old(Nodes())[entry := n]
    {
      entry.next, entry.key, entry.hash, entry.val := n.next, n.key, n.hash, n.val;
    }

    /** `*ptr = next`: the pointer of `find_entry` is the head of a bucket or the link of an entry. */
    method SetLink(b: nat, prev: Entry?, next: Entry?)
      requires b < buckets.Length && (prev != null ==> prev in repr)
      modifies buckets, prev
      ensures buckets[..] == Headed(old(buckets[..]), b, prev, next) && Nodes() == Relinked(old(Nodes()), prev, next)
    {
      if prev == null {
        buckets[b] := next;
      } else {
        prev.next := next;
      }
    }

    /** The second half of `find_entry`: an unused entry is filled and put at the end of its chain, after
        `prev`. */
    method Append(entry: Entry, key: Key, val: nat, b: nat, prev: Entry?)
      requires Linked() && key !in contents && b == Bucket(func, max, key)
      requires entry in repr && !InChains(chains, entry) && entry !in spare
      requires prev == Before(chains[b], |chains[b]|)
      modifies this`contents, this`chains, this`count, buckets, entry, prev
      ensures Linked() && contents == old(contents)[key := val]
      ensures chains == old(chains)[b := old(chains)[b] + [entry]] && entry.key == key
    {
      var n := Node(null, key, func(key), val);
      ghost var nodes, heads, c := Nodes(), buckets[..], chains[b];
      MapSizes(contents, key, val);
      InsertWhole(func, max, nodes, heads, free, chains, spare, contents, entry, n);
      Fill(entry, n, b, prev);
      chains, contents, count := chains[b := c + [entry]], contents[key := val], count + 1;
      assert Nodes() == Relinked(nodes[entry := n], prev, entry);
      assert buckets[..] == Headed(heads, b, prev, entry);
    }

    /** The assignments of `find_entry` to a new entry and to the link that leads to it. */
    method Fill(entry: Entry, n: Node, b: nat, prev: Entry?)
      requires b < buckets.Length && entry in repr && (prev != null ==> prev in repr && prev != entry)
      modifies buckets, entry, prev
      ensures Nodes() == Relinked(old(Nodes())[entry := n], prev, entry) && entry.key == n.key
      ensures buckets[..] == Headed(old(buckets[..]), b, prev, entry)
    {
      ghost var heads := buckets[..];
      SetFields(entry, n);
      assert buckets[..] == heads && Nodes()[entry] == n;
      SetLink(b, prev, entry);
      assert Nodes()[entry].key == n.key;
    }

    /** The assignments of `hash_set` to the link that led to an entry and to its own. */
    method Unlink(entry: Entry, b: nat, prev: Entry?)
      requires b < buckets.Length && entry in repr && (prev != null ==> prev in repr && prev != entry)
      modifies buckets, entry, prev
      ensures Nodes() == Relinked(old(Nodes()), prev, old(entry.next))[entry := old(Nodes())[entry].(next := free)]
      ensures buckets[..] == Headed(old(buckets[..]), b, prev, old(entry.next))
    {
      var n := Node(free, entry.key, entry.hash, entry.val);
      SetLink(b, prev, entry.next);
      ghost var heads := buckets[..];
      SetFields(entry, n);
      assert buckets[..] == heads;
    }

    /** The overwriting of `hash_set`. */
    method Overwrite(val: nat, entry: Entry, ghost b: nat, ghost j: nat)
      requires Linked() && b <= max && j < |chains[b]| && chains[b][j] == entry && entry in repr
      modifies this`contents, entry`val
      ensures Linked() && contents == old(contents)[entry.key := val]
    {
      ghost var nodes := Nodes();
      OverwriteWhole(func, max, nodes, buckets[..], free, chains, spare, contents, b, j, val);
      MapSizes(contents, entry.key, val);
      entry.val := val;
      contents := contents[entry.key := val];
      assert Nodes() == nodes[entry := nodes[entry].(val := val)];
      assert buckets[..] == old(buckets[..]);
    }

    /** The deletion of `hash_set`: the entry is unlinked and recycled. */
    method Remove(entry: Entry, b: nat, prev: Entry?, ghost j: nat)
      requires Linked() && b <= max && j < |chains[b]| && chains[b][j] == entry && entry in repr
      requires prev == Before(chains[b], j)
      modifies this`free, this`count, this`chains, this`spare, this`contents, buckets, entry, prev
      ensures Linked() && contents == old(contents) - {old(entry.key)} && count < old(count)
      ensures spare == [entry] + old(spare)
    {
      ghost var nodes, heads, c := Nodes(), buckets[..], chains[b];
      MapSizes(contents, entry.key, 0);
      RemoveWhole(func, max, nodes, heads, free, chains, spare, contents, b, j);
      ghost var key := entry.key;
      Unlink(entry, b, prev);
      free, count := entry, count - 1;
      chains, contents, spare := chains[b := Without(c, j)], contents - {key}, [entry] + spare;
      assert Nodes() == Relinked(nodes, prev, nodes[entry].next)[entry := nodes[entry].(next := old(free))];
      assert buckets[..] == Headed(heads, b, prev, nodes[entry].next);
    }

    /** One entry of `hash_expand` moves from bucket `i` of the old array to its bucket of the new one. */
    method MoveEntry(entry: Entry, larger: array<Entry?>, max': u32, ghost i: nat, ghost s: Expansion)
      requires Expanding(func, Nodes(), max, max', larger[..], free, spare, s, contents)
      requires i <= max && s.rest[i] != [] && s.rest[i][0] == entry && entry in repr
      modifies larger, entry`next
      ensures Expanding(func, Nodes(), max, max', larger[..], free, spare,
                        Moved(func, old(Nodes()), max', s, i), contents)
      ensures old(entry.next) == At(s.rest[i][1..], 0)
    {
      ghost var nodes, heads := Nodes(), larger[..];
      MoveNext(func, nodes, max, max', heads, free, spare, s, contents, i, Bucket(func, max', entry.key));
      var b := And(entry.hash, max');
      entry.next := larger[b];
      larger[b] := entry;
      assert Nodes() == nodes[entry := nodes[entry].(next := heads[b])];
      assert larger[..] == heads[b := entry];
    }

    /** The inner loop of `hash_expand`. */
    method MoveBucket(first: Entry?, larger: array<Entry?>, max': u32, ghost i: nat, ghost before: Expansion)
        returns (ghost s: Expansion)
      requires Expanding(func, Nodes(), max, max', larger[..], free, spare, before, contents)
      requires i <= max && first == At(before.rest[i], 0)
      modifies larger, repr
      ensures Expanding(func, Nodes(), max, max', larger[..], free, spare, s, contents)
      ensures s.rest == before.rest[i := []]
    {
      s := before;
      var entry := first;
      while entry != null
        invariant Expanding(func, Nodes(), max, max', larger[..], free, spare, s, contents)
        invariant entry == At(s.rest[i], 0) && s.rest == before.rest[i := s.rest[i]]
        decreases |s.rest[i]|
      {
        Placed(func, max, Nodes(), s.rest, spare, s.left, i, 0);
        var next := entry.next;
        ghost var s' := Moved(func, Nodes(), max', s, i);
        MoveEntry(entry, larger, max', i, s);
        s, entry := s', next;
      }
    }

    /** The outer loop of `hash_expand`. */
    method MoveAll(larger: array<Entry?>, max': u32, ghost before: Expansion) returns (ghost s: Expansion)
      requires larger != buckets && before.rest == chains && |chains| == max + 1 && HeadsOk(buckets[..], chains)
      requires Expanding(func, Nodes(), max, max', larger[..], free, spare, before, contents)
      modifies larger, repr
      ensures Whole(func, max', Nodes(), larger[..], free, s.moved, spare, contents)
    {
      s := before;
      ghost var heads := buckets[..];
      for i := 0 to max + 1
        invariant Expanding(func, Nodes(), max, max', larger[..], free, spare, s, contents)
        invariant EmptiedTo(chains, s.rest, i) && buckets[..] == heads
      {
        EmptiedNext(chains, s.rest, i, heads);
        assert buckets[i] == heads[i];
        s := MoveBucket(buckets[i], larger, max', i, s);
      }
      MovedAll(func, Nodes(), max, max', larger[..], free, spare, s, contents, chains);
    }

    /** `hash_expand`: twice as many buckets, the same contents. */
    method Expand()
      requires Linked() && max < 0x7FFF_FFFF
      modifies this`max, this`buckets, this`chains, repr
      ensures Linked() && max == 2 * old(max) + 1 && fresh(buckets)
    {
      var max' := 2 * max + 1;
      ghost var moved;
      var larger;
      larger, moved := Refile(max');
      max, buckets, chains := max', larger, moved;
    }

    /** The entries in a new array, filed for `max'`. */
    method Refile(max': u32) returns (larger: array<Entry?>, ghost moved: seq<Chain>)
      requires Linked()
      modifies repr
      ensures fresh(larger) && larger.Length == max' + 1
      ensures Whole(func, max', Nodes(), larger[..], free, moved, spare, contents)
    {
      ghost var s;
      larger, s := Larger(max');
      s := MoveAll(larger, max', s);
      moved := s.moved;
    }

    /** The empty array that `hash_expand` starts with. */
    method Larger(max': u32) returns (larger: array<Entry?>, ghost s: Expansion)
      requires Linked()
      ensures fresh(larger) && larger.Length == max' + 1 && s.rest == chains
      ensures Expanding(func, Nodes(), max, max', larger[..], free, spare, s, contents)
      ensures |chains| == max + 1 && HeadsOk(buckets[..], chains)
    {
      larger := new Entry?[max' + 1](_ => null);
      OpenWhole(func, max, Nodes(), buckets[..], free, chains, spare, contents);
      s := Expansion(chains, contents, seq(max' + 1, _ => []), map[]);
      ExpansionStarts(func, Nodes(), max, buckets[..], free, chains, spare, contents, max', larger[..], s);
    }

    /** `find_entry`: the place of `key` in its chain, with a new entry there if `val` is not NULL. */
    method FindEntry(key: Key, val: nat) returns (b: nat, prev: Entry?, entry: Entry?, ghost j: nat)
      requires Linked()
      modifies this`free, this`count, this`chains, this`spare, this`contents, this`repr, buckets, repr
      ensures Linked() && fresh(repr - old(repr))
      ensures b == Bucket(func, max, key) && j <= |chains[b]|
      ensures entry == At(chains[b], j) && prev == Before(chains[b], j)
      ensures contents == if val == 0 || key in old(contents) then old(contents) else old(contents)[key := val]
      ensures entry == null <==> key !in contents
      ensures entry != null ==> entry in repr && entry.key == key
      ensures prev != null ==> prev in repr
    {
      b, prev, entry, j := Search(key);
      if entry != null || val == 0 {
        return;
      }
      var e := TakeEntry();
      Append(e, key, val, b, prev);
      entry := e;
    }

    /** `hash_set`: the map with `key` bound to `val`, or without `key` if `val` is NULL. */
    method Set(key: Key, val: nat)
      requires Valid() && max < 0x7FFF_FFFF
      modifies this, buckets, repr
      ensures Valid() && contents == if val != 0 then old(contents)[key := val] else old(contents) - {key}
      ensures max == old(max) || (|contents| == old(max) + 1 && max == 2 * old(max) + 1)
      ensures fresh(repr - old(repr)) && (buckets == old(buckets) || fresh(buckets))
    {
      if val != 0 {
        Put(key, val);
      } else {
        Delete(key);
      }
    }

    /** `hash_set` with a value. */
    method Put(key: Key, val: nat)
      requires Valid() && max < 0x7FFF_FFFF && val != 0
      modifies this`free, this`count, this`chains, this`spare, this`contents, this`repr, this`max, this`buckets
      modifies buckets, repr
      ensures Valid() && contents == old(contents)[key := val]
      ensures max == old(max) || (|contents| == old(max) + 1 && max == 2 * old(max) + 1)
      ensures fresh(repr - old(repr)) && (buckets == old(buckets) || fresh(buckets))
    {
      var entry, b, j := MakeEntry(key, val);
      Bind(val, entry, b, j);
    }

    /** `find_entry` with a value, which always ends at an entry. */
    method MakeEntry(key: Key, val: nat) returns (entry: Entry, ghost b: nat, ghost j: nat)
      requires Valid() && val != 0
      modifies this`free, this`count, this`chains, this`spare, this`contents, this`repr, buckets, repr
      ensures Linked() && fresh(repr - old(repr)) && count <= max + 1
      ensures b <= max && j < |chains[b]| && chains[b][j] == entry && entry in repr && entry.key == key
      ensures contents[key := val] == old(contents)[key := val]
    {
      MapSizes(contents, key, val);
      var prev;
      b, prev, entry, j := FindEntry(key, val);
    }

    /** `hash_set` with NULL. */
    method Delete(key: Key)
      requires Valid()
      modifies this`free, this`count, this`chains, this`spare, this`contents, this`repr, buckets, repr
      ensures Valid() && contents == old(contents) - {key} && fresh(repr - old(repr))
    {
      MapSizes(contents, key, 0);
      var b, prev, entry, j := FindEntry(key, 0);
      if entry != null {
        Remove(entry, b, prev, j);
      }
    }

    /** The branch of `hash_set` with a value: the table grows when it has more entries than `max`. */
    method Bind(val: nat, entry: Entry, ghost b: nat, ghost j: nat)
      requires Linked() && count <= max + 1 && max < 0x7FFF_FFFF
      requires b <= max && j < |chains[b]| && chains[b][j] == entry && entry in repr
      modifies this`contents, this`max, this`buckets, this`chains, repr
      ensures Valid() && contents == old(contents)[old(entry.key) := val]
      ensures if |contents| > old(max) then max == 2 * old(max) + 1 && fresh(buckets)
              else max == old(max) && buckets == old(buckets)
    {
      Overwrite(val, entry, b, j);
      if count > max {
        Expand();
      }
    }
  }

  /** `hash_iter_t`. While the table stays as it is, the iterator has the entries of `Remaining` before it. */
  class Iterator {
    const ht: Table
    var entry: Entry?
    var next: Entry?
    var index: nat
    ghost var tail: Chain

    ghost predicate Valid()
      reads this, ht, ht.repr, ht.buckets
    {
      && ht.Valid() && index <= |ht.chains|
      && next == At(tail, 0) && Linked(ht.Nodes(), tail)
    }

    ghost function Remaining(): Chain
      requires index <= |ht.chains|
      reads this, ht
    {
      tail + Entries(ht.chains, index)
    }

    /** `hash_begin` before its call of `hash_next`: every entry of the table remains. */
    constructor (ht: Table)
      requires ht.Valid()
      ensures Valid() && this.ht == ht && Remaining() == Entries(ht.chains, 0)
    {
      this.ht := ht;
      entry, next, index, tail := null, null, 0, [];
    }

    /** `hash_next`: the next of the remaining entries, or NULL when none remains. */
    method Next() returns (more: bool)
      requires Valid()
      modifies this
      ensures more == (old(Remaining()) != [])
      ensures more ==> Valid() && entry == old(Remaining())[0] && Remaining() == old(Remaining())[1..]
    {
      entry := next;
      ghost var nodes, chains, chain := ht.Nodes(), ht.chains, tail;
      while entry == null
        invariant index <= |chains| && entry == At(chain, 0) && Linked(nodes, chain)
        invariant chain + Entries(chains, index) == old(Remaining())
        decreases |chains| - index
      {
        if index > ht.max {
          return false;
        }
        EnterBucket(ht.func, ht.max, nodes, ht.buckets[..], ht.free, chains, ht.spare, ht.contents, index);
        entry := ht.buckets[index];
        index, chain := index + 1, chains[index];
      }
      LinkedTail(nodes, chain);
      next, tail := entry.next, chain[1..];
      return true;
    }
  }
}
