/** The static state of lib/boardrc.c, updated in place: the record of the board in hand, the packed
    buffer behind it, and the user's .boardrc file. Proved against ReadMarks and MarkCache. */
module BoardRc {
  import opened MachineInts
  import opened ReadMarks
  import opened MarkRecords
  import opened MarkCache

  class Brc {
    // brc
    var size: nat
    var dirty: bool
    var name: Name
    const items: array<u32>
    // brc_buf
    var bufSize: nat
    var bufDirty: bool
    var initialized: bool
    const buf: array<byte>
    /** contents of the file */
    var file: seq<byte>

    ghost var recs: seq<Rec>
    ghost var fileRecs: seq<Rec>

    ghost predicate Shape()
      reads this
    {
      && items.Length == BRC_MAXNUM && buf.Length == BRC_BUFSIZE && size <= BRC_MAXNUM
      && items as object != buf
    }

    /** Buffer and file hold the records they should. */
    ghost predicate Packed()
      reads this, buf
    {
      && bufSize <= BRC_BUFSIZE == buf.Length && Laid(buf[..], 0, bufSize, recs)
      && |file| <= BRC_BUFSIZE && Laid(file, 0, |file|, fileRecs)
    }

    ghost predicate Valid()
      reads this, items, buf
    {
      Shape() && Packed() && Consistent(State())
    }

    ghost function State(): Store
      requires Shape()
      reads this, items
    {
      Store(Rec(name, items[..size]), dirty, recs, bufDirty, initialized, fileRecs)
    }

    /** The zeroed static state before the first board is entered, with a file already laid out. */
    constructor (file: seq<byte>, ghost fileRecs: seq<Rec>)
      requires |file| <= BRC_BUFSIZE && Laid(file, 0, |file|, fileRecs) && GoodRecs(fileRecs)
      ensures Valid() && fresh(items) && fresh(buf) && State() == Reset(fileRecs)
    {
      size, dirty, name := 0, false, [];
      items := new u32[BRC_MAXNUM](_ => 0);
      bufSize, bufDirty, initialized := 0, false, false;
      buf := new byte[BRC_BUFSIZE](_ => 0);
      this.file, this.fileRecs, recs := file, fileRecs, [];
    }

    // ----- the record in hand

    /** `brc_mark_as_read` */
    method MarkAsRead(item: u32) returns (unread: bool)
      requires Shape()
      modifies this`size, this`dirty, items
      ensures Shape() && State() == MarkItem(old(State()), item)
      ensures unread == Unread(old(items[..size]), item)
      ensures dirty == (old(dirty) || items[..size] != old(items[..size]))
      ensures forall s {:trigger IsTop(old(items[..size]), s)} ::
                IsTop(old(items[..size]), s) ==> IsTop(items[..size], s + {item})
    {
      forall s | IsTop(items[..size], s) ensures IsTop(Mark(items[..size], item), s + {item}) {
        MarkIsTop(items[..size], s, item);
      }
      unread := MarkInPlace(item);
    }

    /** The body of `brc_mark_as_read`. */
    method MarkInPlace(item: u32) returns (unread: bool)
      requires Shape()
      modifies this`size, this`dirty, items
      ensures Shape() && State() == MarkItem(old(State()), item)
      ensures unread == Unread(old(items[..size]), item)
    {
      ghost var before := items[..size];
      if size == 0 {
        items[0] := item;
        size := 1;
        dirty := true;
        assert items[..1] == [item];
        return true;
      }
      var n := size;
      for i := 0 to n
        invariant size == n && items[..size] == before && dirty == old(dirty)
        invariant forall k :: 0 <= k < i ==> items[k] > item
      {
        if item == items[i] {
          MarkAt(before, item, i);
          return false;
        } else if item > items[i] {
          MarkAt(before, item, i);
          InsertAt(i, item);
          return true;
        }
      }
      MarkAt(before, item, n);
      if size < BRC_MAXNUM {
        items[size] := item;
        size := size + 1;
        dirty := true;
        assert items[..size] == before + [item];
      }
      return false;
    }

    /** The insertion of `brc_mark_as_read`: entries move down, a full array loses its last one. */
    method InsertAt(i: nat, item: u32)
      requires Shape() && i < size
      modifies this`size, this`dirty, items
      ensures Shape() && dirty
      ensures items[..size] == InsertedAt(old(items[..size]), item, i)
    {
      ghost var before := items[..size];
      if size < BRC_MAXNUM {
        size := size + 1;
      }
      forall k | i < k < size {
        items[k] := items[k - 1];
      }
      items[i] := item;
      dirty := true;
      ShiftedUp(before, items[..size], item, i);
    }

    /** `brc_unread` */
    method IsUnread(item: u32) returns (unread: bool)
      requires Shape()
      ensures unread == Unread(items[..size], item)
      ensures size == 0 ==> unread
      ensures Descending(items[..size]) && size > 0 ==> (unread <==> item !in items[..size] && item > items[size - 1])
    {
      if Descending(items[..size]) && size > 0 {
        UnreadMeans(items[..size], item);
      }
      if size == 0 {
        return true;
      }
      for i := 0 to size
        invariant forall k :: 0 <= k < i ==> items[k] > item
      {
        if item > items[i] {
          PlaceIs(items[..size], item, i);
          return true;
        } else if item == items[i] {
          PlaceIs(items[..size], item, i);
          return false;
        }
      }
      PlaceIs(items[..size], item, size);
      return false;
    }

    /** `brc_clear`: the start is computed in unsigned arithmetic and the bound compared so. For the items left
        out here the counter overflows, or the loop never ends. */
    method Clear(t: u32)
      requires Shape() && Clearable(t)
      modifies this`size, this`dirty, items
      ensures Shape() && State() == MarkEach(old(State()), Cleared(t))
    {
      var i := ToInt32(ToU32(t - BRC_MAXNUM + 1));
      ghost var rest, goal := Cleared(t), MarkEach(State(), Cleared(t));
      ClearStarts(t, i);
      while ToU32(i) <= t
        modifies this`size, this`dirty, items
        invariant Shape() && ToClear(rest, i, t) && MarkEach(State(), rest) == goal
        decreases |rest|
      {
        ClearGoesOn(rest, i, t);
        var _ := MarkAsRead(ToU32(i));
        i, rest := i + 1, rest[1..];
      }
    }

    // ----- the packed buffer

    /** `brc_put_record` for a record with items */
    method PutRecord(ptr: nat, r: Rec) returns (next: nat)
      requires buf.Length == BRC_BUFSIZE && GoodRec(r) && ptr + Size(r) <= BRC_BUFSIZE
      modifies buf
      ensures next == ptr + Size(r)
      ensures Written(buf[..], ptr, r)
      ensures forall i :: 0 <= i < ptr || next <= i < BRC_BUFSIZE ==> buf[i] == old(buf[i])
    {
      forall i | 0 <= i < |r.name| {
        buf[ptr + i] := r.name[i];
      }
      buf[ptr + |r.name|] := 0;
      buf[ptr + BRC_STRLEN] := |r.items|;
      forall k | 0 <= k < 4 * |r.items| {
        buf[ptr + HEADER + k] := LeByte(r.items[k / 4], k % 4);
      }
      FourBytesEach(buf[..], ptr + HEADER, r.items);
      next := ptr + Size(r);
    }

    /** `brc_merge`, from a copy of the records to merge with */
    method Merge(src: seq<byte>, srcSize: nat, ghost srcRecs: seq<Rec>)
      requires Shape() && srcSize <= |src| <= BRC_BUFSIZE
      requires Laid(src, 0, srcSize, srcRecs) && (size == 0 || GoodRec(Rec(name, items[..size])))
      modifies buf, this`bufSize, this`dirty, this`bufDirty, this`recs
      ensures Shape() && !dirty && bufDirty
      ensures recs == Merged(Rec(name, items[..size]), srcRecs)
      ensures bufSize <= BRC_BUFSIZE && Laid(buf[..], 0, bufSize, recs)
    {
      LaidSize(src, 0, srcSize, srcRecs);
      ghost var cur := Rec(name, items[..size]);
      var ptr: nat := 0;
      recs := [];
      if size != 0 {
        ptr := PutNext(0, Rec(name, items[..size]));
        assert recs == [cur] && ptr == Size(cur) <= BRC_ITEMSIZE;
      }
      assert recs == if cur.items == [] then [] else [cur];
      ptr := MergeRest(src, srcSize, srcRecs, ptr);
      bufSize := ptr;
      dirty := false;
      bufDirty := true;
    }

    /** The loop of `brc_merge`: the records of other boards that start below the limit are put behind. */
    method MergeRest(src: seq<byte>, srcSize: nat, ghost srcRecs: seq<Rec>, start: nat) returns (ptr: nat)
      requires buf.Length == BRC_BUFSIZE && srcSize <= |src| <= BRC_BUFSIZE
      requires Laid(src, 0, srcSize, srcRecs) && start <= BRC_ITEMSIZE && Laid(buf[..], 0, start, recs)
      modifies buf, this`recs
      ensures recs == old(recs) + Others(Kept(srcRecs, 0, Limit(srcSize)), name)
      ensures ptr <= BRC_BUFSIZE && Laid(buf[..], 0, ptr, recs)
    {
      ghost var goal := recs + Others(Kept(srcRecs, 0, Limit(srcSize)), name);
      ptr := start;
      var limit := srcSize;
      if limit > BRC_BUFSIZE - BRC_ITEMSIZE {
        limit := BRC_BUFSIZE - BRC_ITEMSIZE * 2 + 1;
      }
      var tmp := 0;
      ghost var rest := srcRecs;
      while tmp < limit && Printable(src[tmp])
        modifies buf, this`recs
        invariant ToMerge(goal, recs, src, srcSize, tmp, rest, limit, name, ptr)
        invariant Laid(buf[..], 0, ptr, recs)
        decreases srcSize - tmp
      {
        MergeGoesOn(goal, recs, src, srcSize, tmp, rest, limit, name, ptr);
        var r := RecAt(src, tmp);
        if r.name != name {
          ptr := PutNext(ptr, r);
        }
        tmp := NextAt(src, tmp);
        rest := rest[1..];
      }
      MergeEnds(goal, recs, src, srcSize, tmp, rest, limit, name, ptr);
    }

    /** Putting one more record at the end of what is laid out. */
    method PutNext(ptr: nat, r: Rec) returns (next: nat)
      requires buf.Length == BRC_BUFSIZE && GoodRec(r) && ptr + Size(r) <= BRC_BUFSIZE
      requires Laid(buf[..], 0, ptr, recs)
      modifies buf, this`recs
      ensures next == ptr + Size(r) && recs == old(recs) + [r]
      ensures Laid(buf[..], 0, next, recs)
    {
      ghost var before := buf[..];
      next := PutRecord(ptr, r);
      WrittenIsRead(buf[..], ptr, r);
      SameLaid(before, buf[..], 0, ptr, recs);
      assert Laid(buf[..], ptr, next, [r]);
      LaidAppend(buf[..], 0, ptr, next, recs, [r]);
      recs := recs + [r];
    }

    // ----- board switching and the file

    method Load()
      requires buf.Length == BRC_BUFSIZE && |file| <= BRC_BUFSIZE && Laid(file, 0, |file|, fileRecs)
      modifies buf, this`bufSize, this`initialized, this`bufDirty, this`recs
      ensures initialized && !bufDirty && recs == fileRecs
      ensures bufSize <= BRC_BUFSIZE && Laid(buf[..], 0, bufSize, recs)
    {
      forall i | 0 <= i < |file| {
        buf[i] := file[i];
      }
      bufSize := |file|;
      initialized := true;
      bufDirty := false;
      recs := fileRecs;
      SameLaid(file, buf[..], 0, |file|, fileRecs);
    }

    /** `brc_init` */
    method Init(board: Name) returns (count: nat)
      requires Valid() && GoodName(board)
      modifies this, items, buf
      ensures Valid() && State() == Visit(old(State()), board)
      ensures count == if old(name) == board then size else |Find(recs, board)|
    {
      if name == board {
        return size;
      }
      ghost var s := State();
      VisitConsistent(s, board);
      Turn();
      count := Fetch(board);
      assert State() == Visit(s, board);
    }

    /** The part of `brc_init` that puts the buffer in order: marks made since the last merge go in, and
        the file is read the first time. */
    method Turn()
      requires Shape() && Packed()
      requires size == 0 || GoodRec(Rec(name, items[..size]))
      modifies buf, this`bufSize, this`dirty, this`bufDirty, this`initialized, this`recs
      ensures Shape() && !dirty && initialized
      ensures bufDirty == (old(initialized) && (old(dirty) || old(bufDirty)))
      ensures recs == if !old(initialized) then fileRecs
                      else if old(dirty) then Merged(Rec(name, items[..size]), old(recs)) else old(recs)
      ensures Packed()
    {
      if dirty {
        Merge(buf[..], bufSize, recs);
      }
      if !initialized {
        Load();
      }
    }

    /** The search of `brc_init`: every record passed over is read into the record in hand. */
    method Fetch(board: Name) returns (count: nat)
      requires Shape() && GoodName(board) && Packed()
      modifies this`name, this`size, this`dirty, items
      ensures Shape() && count == |Find(recs, board)|
      ensures name == board && items[..size] == if count > 0 then Find(recs, board) else [1]
      ensures dirty == (old(dirty) || count == 0)
    {
      var ptr := 0;
      ghost var rest, b := recs, buf[..];
      while ptr < bufSize && Printable(buf[ptr])
        invariant Shape() && ptr <= bufSize && buf[..] == b && Laid(b, ptr, bufSize, rest)
        invariant Find(recs, board) == Find(rest, board) && dirty == old(dirty)
        decreases bufSize - ptr
      {
        var r, next := RecAt(buf[..], ptr), NextAt(buf[..], ptr);
        FetchInto(r);
        if name == board {
          return size;
        }
        ptr := next;
        rest := rest[1..];
      }
      assert rest == [];
      name := board;
      items[0] := 1;
      size := 1;
      dirty := true;
      return 0;
    }

    /** `brc_get_record` into the record in hand */
    method FetchInto(r: Rec)
      requires Shape() && |r.items| <= BRC_MAXNUM
      modifies this`name, this`size, items
      ensures Shape() && name == r.name && items[..size] == r.items
    {
      name := r.name;
      size := |r.items|;
      forall i | 0 <= i < |r.items| {
        items[i] := r.items[i];
      }
    }

    /** `brc_sync` */
    method DoSync()
      requires Valid()
      modifies this, buf
      ensures Valid() && State() == Sync(old(State()))
      ensures if old(dirty || bufDirty) then !dirty && bufDirty && file == buf[..bufSize]
              else file == old(file) && !dirty && !bufDirty
    {
      if !dirty && !bufDirty {
        return;
      }
      SyncConsistent(State());
      WriteFile();
    }

    /** The merging and saving of `brc_sync`. */
    method WriteFile()
      requires Shape() && Packed() && (size == 0 || GoodRec(Rec(name, items[..size])))
      modifies buf, this`bufSize, this`dirty, this`bufDirty, this`recs, this`file, this`fileRecs
      ensures Shape() && Packed() && !dirty && bufDirty && file == buf[..bufSize]
      ensures recs == fileRecs == Merged(Rec(name, items[..size]), old(fileRecs))
    {
      Merge(file, |file|, fileRecs);
      file := buf[..bufSize];
      fileRecs := recs;
      SameLaid(buf[..], file, 0, bufSize, recs);
    }
  }

  /** Items for which the `int` counter of `brc_clear` neither overflows nor misses its bound. */
  predicate Clearable(t: u32) {
    t < I32_LIMIT - 1 || I32_LIMIT + BRC_MAXNUM - 1 <= t < U32_LIMIT - 1
  }

  /** `brc_clear` has come to `i`, an `int`, and still has `rest` to mark. */
  ghost predicate ToClear(rest: seq<u32>, i: int, t: u32) {
    && i == ToInt32(ToU32(i)) && Clearable(t) && (t >= I32_LIMIT ==> i < 0)
    && (if rest == [] then ToU32(i) > t
        else |rest| == t + 1 - ToU32(i) && forall k :: 0 <= k < |rest| ==> rest[k] == ToU32(i) + k)
  }

  lemma ClearStarts(t: u32, start: int)
    requires Clearable(t) && start == ToInt32(ToU32(t - BRC_MAXNUM + 1))
    ensures ToClear(Cleared(t), start, t)
  {}

  lemma ClearGoesOn(rest: seq<u32>, i: int, t: u32)
    requires ToClear(rest, i, t) && ToU32(i) <= t
    ensures rest != [] && ToU32(i) == rest[0]
    ensures -I32_LIMIT <= i + 1 < I32_LIMIT && ToClear(rest[1..], i + 1, t)
  {}

  /** The bytes of the items, counted one by one and item by item. */
  lemma FourBytesEach(b: seq<byte>, start: nat, items: seq<u32>)
    requires start + 4 * |items| <= |b|
    requires forall k :: 0 <= k < 4 * |items| ==> b[start + k] == LeByte(items[k / 4], k % 4)
    ensures forall i, k {:trigger LeByte(items[i], k)} :: 0 <= i < |items| && 0 <= k < 4 ==>
              b[start + 4 * i + k] == LeByte(items[i], k)
  {
    forall i, k | 0 <= i < |items| && 0 <= k < 4 ensures b[start + 4 * i + k] == LeByte(items[i], k) {
      var n := 4 * i + k;
      assert n / 4 == i && n % 4 == k;
      assert b[start + n] == LeByte(items[n / 4], n % 4);
    }
  }

  function InsertedAt(items: seq<u32>, item: u32, i: nat): seq<u32>
    requires i <= |items|
  {
    var longer := items[..i] + [item] + items[i..];
    if |longer| > BRC_MAXNUM then longer[..BRC_MAXNUM] else longer
  }

  lemma ShiftedUp(before: seq<u32>, after: seq<u32>, item: u32, i: nat)
    requires i < |before| <= BRC_MAXNUM && |after| == Min(|before| + 1, BRC_MAXNUM)
    requires forall k :: 0 <= k < i ==> after[k] == before[k]
    requires after[i] == item && forall k :: i < k < |after| ==> after[k] == before[k - 1]
    ensures after == InsertedAt(before, item, i)
  {
    var longer := before[..i] + [item] + before[i..];
    forall k | 0 <= k < |after| ensures longer[k] == after[k] {
      if k > i {
        assert longer[k] == before[i..][k - i - 1] == before[k - 1];
      }
    }
    assert longer[..|after|] == after;
    if |longer| == |after| {
      assert longer[..|after|] == longer;
    }
  }

  /** What marking does, given where the search stops. */
  lemma MarkAt(items: seq<u32>, item: u32, p: nat)
    requires p <= |items| <= BRC_MAXNUM && forall k :: 0 <= k < p ==> items[k] > item
    requires p < |items| ==> items[p] <= item
    ensures p < |items| && items[p] == item ==> Mark(items, item) == items
    ensures p < |items| && items[p] < item ==>
              Mark(items, item) == InsertedAt(items, item, p) && Mark(items, item) != items
    ensures p == |items| ==>
              Mark(items, item) == if |items| < BRC_MAXNUM then items + [item] else items
    ensures Unread(items, item) == (items == [] || (p < |items| && items[p] < item))
  {
    PlaceIs(items, item, p);
    if p == |items| {
      assert items[..p] + [item] + items[p..] == items + [item];
      assert (items + [item])[..|items|] == items;
    } else if items[p] < item {
      assert InsertedAt(items, item, p)[p] == item;
    }
  }

  lemma {:induction false} PlaceIs(items: seq<u32>, item: u32, p: nat)
    requires p <= |items| && forall k :: 0 <= k < p ==> items[k] > item
    requires p < |items| ==> items[p] <= item
    ensures Place(items, item) == p
  {
    if p > 0 {
      PlaceIs(items[1..], item, p - 1);
    }
  }

  /** The merge loop has come to `tmp` of `src` with `rest` still to read, has written `out` up to
      `ptr`, and is to end with `goal`. */
  ghost predicate ToMerge(goal: seq<Rec>, out: seq<Rec>, src: seq<byte>, srcSize: nat, tmp: nat,
                          rest: seq<Rec>, limit: nat, name: Name, ptr: nat) {
    && srcSize <= |src| <= BRC_BUFSIZE && tmp <= srcSize && limit == Limit(srcSize)
    && Laid(src, tmp, srcSize, rest)
    && ptr <= BRC_ITEMSIZE + tmp && ptr <= BRC_BUFSIZE
    && goal == out + Others(Kept(rest, tmp, limit), name)
  }

  /** The record at `tmp` fits behind what is written, in the cut and in the uncut case. */
  lemma MergeGoesOn(goal: seq<Rec>, out: seq<Rec>, src: seq<byte>, srcSize: nat, tmp: nat,
                    rest: seq<Rec>, limit: nat, name: Name, ptr: nat)
    requires ToMerge(goal, out, src, srcSize, tmp, rest, limit, name, ptr) && tmp < limit
    ensures rest != [] && Readable(src, tmp) && RecAt(src, tmp) == rest[0] && GoodRec(rest[0])
    ensures NextAt(src, tmp) == tmp + Size(rest[0]) && tmp < NextAt(src, tmp)
    ensures ptr + Size(rest[0]) <= BRC_BUFSIZE
    ensures if rest[0].name == name
            then ToMerge(goal, out, src, srcSize, NextAt(src, tmp), rest[1..], limit, name, ptr)
            else ToMerge(goal, out + [rest[0]], src, srcSize, NextAt(src, tmp), rest[1..], limit, name,
                         ptr + Size(rest[0]))
  {
    RecExtent(src, tmp);
    var tail := Others(Kept(rest[1..], tmp + Size(rest[0]), limit), name);
    assert Kept(rest, tmp, limit)[1..] == Kept(rest[1..], tmp + Size(rest[0]), limit);
    assert Others(Kept(rest, tmp, limit), name) == (if rest[0].name == name then [] else [rest[0]]) + tail;
    assert [] + tail == tail && out + ([rest[0]] + tail) == out + [rest[0]] + tail;
  }

  /** At the limit, or where no record starts, all is merged. */
  lemma MergeEnds(goal: seq<Rec>, out: seq<Rec>, src: seq<byte>, srcSize: nat, tmp: nat,
                  rest: seq<Rec>, limit: nat, name: Name, ptr: nat)
    requires ToMerge(goal, out, src, srcSize, tmp, rest, limit, name, ptr)
    requires tmp < limit ==> tmp < |src| && !Printable(src[tmp])
    ensures out == goal
  {
    assert Kept(rest, tmp, limit) == [];
    assert out + [] == out;
  }
}
