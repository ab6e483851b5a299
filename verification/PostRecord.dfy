/** Rebuilding a board's record file from the table (lib/post.c): the body of one refresher. */
module PostRecord {
  import opened PostTables
  import opened Records
  import opened RecordFile

  function ToRecord(): Post -> Record {
    (p: Post) => Record(p.id, p.title)
  }

  function OnBoard(bid: int): Post -> bool {
    (p: Post) => p.boardId == bid
  }

  /** The rows the query of `update_record` returns, as records. */
  function BoardRows(table: seq<Post>, bid: int): seq<Record> {
    Map(Select(table, OnBoard(bid)), ToRecord())
  }

  class BoardFile {
    const file: File
    /** the board's entry in the invalidity hash */
    var invalidity: int

    constructor ()
      ensures fresh(file) && fresh(file.data) && file.data[..] == [] && invalidity == 0
    {
      file := new File();
      invalidity := 0;
    }

    /** `update_record`: the file holds the number and the title of every post of the board, in ascending order of
        the numbers, and nothing else. */
    method UpdateRecord(table: seq<Post>, bid: int)
      requires DistinctIds(table)
      modifies file, file.data
      ensures file.data == old(file.data) || fresh(file.data)
      ensures file.data[..] == Sort(BoardRows(table, bid))
      ensures forall i, j :: 0 <= i < j < file.data.Length ==> file.data[i].key < file.data[j].key
      ensures forall k, t {:trigger Record(k, t)} :: Record(k, t) in file.data[..]
                <==> exists p :: p in table && p.boardId == bid && p.id == k && p.title == t
    {
      SortedPosts(table, bid);
      Rebuild(table, bid);
    }

    /** The body of `update_record`. */
    method Rebuild(table: seq<Post>, bid: int)
      requires DistinctKeys(BoardRows(table, bid))
      modifies file, file.data
      ensures file.data == old(file.data) || fresh(file.data)
      ensures file.data[..] == Sort(BoardRows(table, bid))
    {
      var res := Select(table, OnBoard(bid));
      ghost var rows := BoardRows(table, bid);
      var posts := new Record[|res|];
      for i := 0 to |res|
        modifies posts
        invariant forall k :: 0 <= k < i ==> posts[k] == rows[k]
      {
        MapAt(res, ToRecord(), i);
        posts[i] := Record(res[i].id, res[i].title);
      }
      assert posts[..] == rows;
      file.Qsort(posts);
      OneWayToSort(rows, posts[..]);
      WriteAndCut(posts[..]);
    }

    /** `record_write` at the front, then `record_truncate`. */
    method WriteAndCut(recs: seq<Record>)
      modifies file, file.data
      ensures file.data == old(file.data) || fresh(file.data)
      ensures file.data[..] == recs
    {
      file.RecordWrite(recs, 0);
      ghost var written := file.data[..];
      file.Truncate(|recs|);
      assert file.data[..] == written[..|recs|] == recs;
    }

    /** `post_update_record`; `locked` says that another process holds the file's lock, `table` is the table when
        the query is made, and `announced` what others add to the counter between its reading and the payment. */
    method PostUpdateRecord(table: seq<Post>, bid: int, force: bool, locked: bool, announced: nat)
        returns (updated: bool)
      requires bid > 0 && DistinctIds(table)
      modifies this`invalidity, file, file.data
      ensures file.data == old(file.data) || fresh(file.data)
      ensures updated == ((force || old(invalidity) != 0) && !locked)
      ensures updated ==> file.data[..] == Sort(BoardRows(table, bid))
      ensures updated ==> forall i, j :: 0 <= i < j < file.data.Length ==> file.data[i].key < file.data[j].key
      ensures updated ==> forall k, t {:trigger Record(k, t)} :: Record(k, t) in file.data[..]
                            <==> exists p :: p in table && p.boardId == bid && p.id == k && p.title == t
      ensures !updated ==> file.data[..] == old(file.data[..])
      ensures invalidity == announced + if updated && !force then 0 else old(invalidity)
    {
      updated := false;
      var invalid := 0;
      if !force {
        invalid := invalidity;
      }
      invalidity := invalidity + announced;
      if force || invalid != 0 {
        if !locked {
          UpdateRecord(table, bid);
          updated := true;
          if invalid != 0 {
            invalidity := invalidity - invalid;
          }
        }
      }
    }
  }

  lemma {:induction false} MapAt<S, T>(rows: seq<S>, f: S -> T, i: nat)
    requires i < |rows|
    ensures Map(rows, f)[i] == f(rows[i])
  {
    if i > 0 {
      MapAt(rows[1..], f, i - 1);
    }
  }

  /** The number of a post is its key in the table. */
  ghost predicate DistinctIds(table: seq<Post>) {
    forall i, j :: 0 <= i < j < |table| ==> table[i].id != table[j].id
  }

  lemma {:induction false} BoardRowsAre(table: seq<Post>, bid: int)
    ensures forall r :: r in BoardRows(table, bid)
              <==> exists p :: p in table && p.boardId == bid && p.id == r.key && p.title == r.body
    ensures DistinctIds(table) ==> DistinctKeys(BoardRows(table, bid))
  {
    if table != [] {
      BoardRowsAre(table[1..], bid);
      assert table == [table[0]] + table[1..];
      var rest := BoardRows(table[1..], bid);
      if OnBoard(bid)(table[0]) {
        var first := Record(table[0].id, table[0].title);
        FirstRow(table, bid);
        assert BoardRows(table, bid) == [first] + rest;
        if DistinctIds(table) {
          forall j | 0 <= j < |rest| ensures rest[j].key != first.key {
            assert rest[j] in rest;
          }
        }
      }
    }
  }

  lemma FirstRow(table: seq<Post>, bid: int)
    requires table != [] && OnBoard(bid)(table[0])
    ensures BoardRows(table, bid) == [ToRecord()(table[0])] + BoardRows(table[1..], bid)
  {
    var rows := Select(table, OnBoard(bid));
    assert rows[1..] == Select(table[1..], OnBoard(bid));
  }

  /** The sorted records of a board: strictly ascending, and one for each of its posts. */
  lemma SortedPosts(table: seq<Post>, bid: int)
    requires DistinctIds(table)
    ensures DistinctKeys(BoardRows(table, bid))
    ensures var recs := Sort(BoardRows(table, bid));
            && (forall i, j :: 0 <= i < j < |recs| ==> recs[i].key < recs[j].key)
            && (forall r :: r in recs
                  <==> exists p :: p in table && p.boardId == bid && p.id == r.key && p.title == r.body)
  {
    var rows := BoardRows(table, bid);
    BoardRowsAre(table, bid);
    SortFacts(rows);
    SortedDistinct(rows);
    forall r ensures r in Sort(rows) <==> r in rows {
      assert r in Sort(rows) <==> r in multiset(Sort(rows));
      assert r in rows <==> r in multiset(rows);
    }
  }

  lemma OneWayToSort(rows: seq<Record>, sorted: seq<Record>)
    requires DistinctKeys(rows) && Sorted(sorted) && multiset(sorted) == multiset(rows)
    ensures sorted == Sort(rows)
  {
    SortFacts(rows);
    SortedDistinct(rows);
    SortedOnce(Sort(rows), sorted);
  }

  /** Sorting keeps keys distinct. */
  lemma SortedDistinct(s: seq<Record>)
    requires DistinctKeys(s)
    ensures DistinctKeys(Sort(s))
  {
    SortFacts(s);
    var t := Sort(s);
    forall i, j | 0 <= i < j < |t| ensures t[i].key != t[j].key {
      DistinctPair(s, t, i, j);
    }
  }

  lemma DistinctPair(s: seq<Record>, t: seq<Record>, i: nat, j: nat)
    requires DistinctKeys(s) && multiset(s) == multiset(t) && i < j < |t|
    ensures t[i].key != t[j].key
  {
    assert t == t[..i] + [t[i]] + t[i + 1..j] + [t[j]] + t[j + 1..];
    var two := multiset{t[i], t[j]};
    assert two <= multiset(t);
    assert t[i] in multiset(s) && t[j] in multiset(s);
    var x :| 0 <= x < |s| && s[x] == t[i];
    var y :| 0 <= y < |s| && s[y] == t[j];
    if x == y {
      OnlyOnce(s, x);
    }
  }

  /** A record of a sequence with distinct keys occurs once. */
  lemma OnlyOnce(s: seq<Record>, x: nat)
    requires DistinctKeys(s) && x < |s|
    ensures multiset(s)[s[x]] == 1
  {
    assert s == s[..x] + [s[x]] + s[x + 1..];
    assert s[x] !in s[..x] && s[x] !in s[x + 1..];
  }
}
