/** A record file rewritten in place through its mapping (lib/record.c). */
module RecordFile {
  import opened MachineInts
  import opened Records

  class File {
    /** the mapped file, record by record */
    var data: array<Record>

    constructor ()
      ensures fresh(data) && data[..] == []
    {
      data := new Record[0];
    }

    /** `mmap_truncate` or `ftruncate`: the file gets a new length and keeps what fits. */
    method Truncate(count: nat)
      modifies this`data
      ensures fresh(data) && data.Length == count
      ensures forall i :: 0 <= i < count && i < old(data.Length) ==> data[i] == old(data[i])
    {
      var d := new Record[count];
      forall i | 0 <= i < count && i < data.Length {
        d[i] := data[i];
      }
      data := d;
    }

    /** `record_write`: the file grows if it must; what lies in a gap it leaves is not said. */
    method RecordWrite(recs: seq<Record>, offset: nat)
      modifies this`data, data
      ensures data == old(data) || fresh(data)
      ensures data.Length == if recs == [] then old(data.Length) else Max(old(data.Length), offset + |recs|)
      ensures forall i :: 0 <= i < |recs| ==> data[offset + i] == recs[i]
      ensures forall i :: 0 <= i < old(data.Length) && !(offset <= i < offset + |recs|) ==> data[i] == old(data[i])
    {
      if recs != [] && offset + |recs| > data.Length {
        Truncate(offset + |recs|);
      }
      forall i | 0 <= i < |recs| {
        data[offset + i] := recs[i];
      }
    }

    /** `record_merge`: the new records are sorted, then both runs are merged from the back, in the
        very memory that still holds the old records. */
    method RecordMerge(ptr: array<Record>)
      requires ptr != data && Sorted(data[..])
      modifies this`data, ptr
      ensures ptr.Length == 0 ==> data == old(data) && data[..] == old(data[..])
      ensures ptr.Length > 0 ==> fresh(data)
      ensures Sorted(ptr[..]) && multiset(ptr[..]) == multiset(old(ptr[..]))
      ensures data[..] == Merge(old(data[..]), ptr[..])
    {
      Qsort(ptr);
      if ptr.Length == 0 {
        return;
      }
      var size, count := data.Length, ptr.Length;
      ghost var a := data[..];
      Truncate(size + count);
      MergeBack(size, ptr, a);
    }

    /** The loop of `record_merge`. The first `size` records are old and not yet moved; no record is
        overwritten before it is read, because `dst` stays at least `p2 + 1` above `src`. */
    method MergeBack(size: nat, ptr: array<Record>, ghost a: seq<Record>)
      requires ptr != data && data.Length == size + ptr.Length && size == |a|
      requires forall k :: 0 <= k < size ==> data[k] == a[k]
      modifies data
      ensures data[..] == Merge(a, ptr[..])
    {
      ghost var b, tail, was: seq<Record> := ptr[..], [], data[..];
      var src, dst, p2 := size - 1, data.Length - 1, ptr.Length - 1;
      assert a[..size] == a && b[..ptr.Length] == b;
      while p2 >= 0
        invariant data[..] == was && ptr[..] == b
        invariant ToMergeBack(was, a, b, src, dst, p2, tail)
        decreases dst + 1
      {
        MergeStep(was, a, b, src, dst, p2, tail);
        if src < 0 || Cmp(data[src], ptr[p2]) <= 0 {
          data[dst] := ptr[p2];
          p2 := p2 - 1;
        } else {
          data[dst] := data[src];
          src := src - 1;
        }
        was, tail := data[..], [data[dst]] + tail;
        dst := dst - 1;
      }
      assert b[..0] == [];
      assert data[..] == a[..src + 1] + tail;
    }

    /** `qsort` */
    method Qsort(ptr: array<Record>)
      modifies ptr
      ensures Sorted(ptr[..]) && multiset(ptr[..]) == multiset(old(ptr[..]))
    {
      var sorted := Sort(ptr[..]);
      SortFacts(ptr[..]);
      assert |sorted| == |multiset(sorted)| == |multiset(ptr[..])| == ptr.Length;
      forall i | 0 <= i < ptr.Length {
        ptr[i] := sorted[i];
      }
      assert ptr[..] == sorted;
    }

    /** `check_offset`: whether the caller's idea of where its record is still holds. */
    method CheckOffset(known: bool, r: Record, offset: nat) returns (start: nat)
      ensures start == if !known then offset
                       else if 0 < offset < data.Length && data[offset].key <= r.key then offset else 0
    {
      if !known {
        return offset;
      }
      if offset != 0 && offset < data.Length && Cmp(data[offset], r) <= 0 {
        return offset;
      }
      return 0;
    }

    /** `record_apply` */
    method RecordApply(known: bool, r: Record, offset: nat, f: Callback, delete: bool) returns (affected: nat)
      modifies this`data, data
      ensures data == old(data) || fresh(data)
      ensures var start := if !known then offset
                           else if 0 < offset < old(data.Length) && old(data[..])[offset].key <= r.key then offset
                           else 0;
              if start >= old(data.Length) then affected == 0 && data[..] == old(data[..])
              else
                var front, rest := old(data[..])[..start], old(data[..])[start..];
                && affected == Matched(rest, start, f, delete)
                && data[..] == front + if delete then Kept(rest, start, f) else Changed(rest, start, f)
    {
      var start := CheckOffset(known, r, offset);
      if start >= data.Length {
        return 0;
      }
      if delete {
        affected := ApplyDelete(start, f);
        if affected > 0 {
          ghost var kept := data[..data.Length - affected];
          Truncate(data.Length - affected);
          assert data[..] == kept;
        } else {
          assert data[..data.Length] == data[..];
        }
      } else {
        affected := ApplyChange(start, f);
      }
    }

    /** The loop of `record_apply` in delete mode: records that stay slide down over those that match. */
    method ApplyDelete(start: nat, f: Callback) returns (affected: nat)
      requires start <= data.Length
      modifies data
      ensures affected == Matched(old(data[start..]), start, f, true) && affected <= data.Length - start
      ensures data[..data.Length - affected] == old(data[..start]) + Kept(old(data[start..]), start, f)
    {
      ghost var front, rest, was := data[..start], data[start..], data[..];
      ghost var kept, gap: seq<Record> := [], [];
      affected := 0;
      var p := start;
      assert rest[..0] == [] && rest[0..] == rest && front + rest == was;
      while p < data.Length
        invariant start <= p <= data.Length == start + |rest| && data[..] == was
        invariant ToDelete(was, front, rest, start, f, p, kept, gap, affected)
      {
        DeleteStep(was, front, rest, start, f, p, kept, gap, affected);
        var (verdict, changed) := Call(f, data[p], p);
        data[p] := changed;
        was, gap := was[p := changed], gap + [changed];
        if verdict == Match {
          affected := affected + 1;
        } else {
          data[p - affected] := data[p];
          was, kept, gap := was[p - affected := changed], kept + [changed], gap[1..];
        }
        p := p + 1;
      }
      DeleteEnds(was, front, rest, start, f, p, kept, gap, affected);
    }

    /** The loop of `record_apply` otherwise. */
    method ApplyChange(start: nat, f: Callback) returns (affected: nat)
      requires start <= data.Length
      modifies data
      ensures affected == Matched(old(data[start..]), start, f, false)
      ensures data[..] == old(data[..start]) + Changed(old(data[start..]), start, f)
    {
      ghost var front, rest, was := data[..start], data[start..], data[..];
      ghost var done: seq<Record> := [];
      affected := 0;
      var p := start;
      assert rest[0..] == rest && front + rest == was;
      while p < data.Length
        invariant start <= p <= data.Length == start + |rest| && data[..] == was
        invariant ToChange(was, front, rest, start, f, p, done, affected)
      {
        ChangeStep(was, front, rest, start, f, p, done, affected);
        var (verdict, changed) := Call(f, data[p], p);
        data[p] := changed;
        was, done := was[p := changed], done + [changed];
        if verdict == Match {
          affected := affected + 1;
        } else if verdict == Break {
          return;
        }
        p := p + 1;
      }
      ChangeEnd(rest, start, f, done, affected);
      assert rest[|rest|..] == [];
    }
  }

  /** The backward loop has `src + 1` old and `p2 + 1` new records to merge in front of `tail`. */
  ghost predicate ToMergeBack(was: seq<Record>, a: seq<Record>, b: seq<Record>, src: int, dst: int, p2: int,
                              tail: seq<Record>) {
    && -1 <= src < |a| && -1 <= p2 < |b| && dst == src + p2 + 1 && dst < |was|
    && was[..src + 1] == a[..src + 1] && was[dst + 1..] == tail
    && MergedTo(a, b, src + 1, p2 + 1, tail)
  }

  lemma MergeStep(was: seq<Record>, a: seq<Record>, b: seq<Record>, src: int, dst: int, p2: int, tail: seq<Record>)
    requires ToMergeBack(was, a, b, src, dst, p2, tail) && p2 >= 0
    ensures src >= 0 ==> was[src] == a[src]
    ensures if src < 0 || Cmp(a[src], b[p2]) <= 0
            then ToMergeBack(was[dst := b[p2]], a, b, src, dst - 1, p2 - 1, [b[p2]] + tail)
            else ToMergeBack(was[dst := a[src]], a, b, src - 1, dst - 1, p2, [a[src]] + tail)
  {
    MergeOne(a, b, src + 1, p2 + 1, tail);
    if src >= 0 {
      assert was[..src + 1][src] == a[..src + 1][src];
    }
    BackOne(was, a, src, dst, tail, b[p2]);
    if src >= 0 {
      BackOne(was, a, src, dst, tail, a[src]);
      assert was[..src] == was[..src + 1][..src] && a[..src] == a[..src + 1][..src];
    }
  }

  /** A record put behind the old ones. */
  lemma BackOne(was: seq<Record>, a: seq<Record>, src: int, dst: int, tail: seq<Record>, x: Record)
    requires -1 <= src < dst < |was| && src < |a| && was[..src + 1] == a[..src + 1] && was[dst + 1..] == tail
    ensures was[dst := x][..src + 1] == a[..src + 1] && was[dst := x][dst..] == [x] + tail
    ensures src >= 0 ==> was[dst := x][..src] == was[..src]
  {
  }

  /** The deleting loop has come to `p`: the records kept stand behind `front`, then what they left behind. */
  ghost predicate ToDelete(was: seq<Record>, front: seq<Record>, rest: seq<Record>, start: nat, f: Callback, p: nat,
                           kept: seq<Record>, gap: seq<Record>, affected: nat) {
    && |front| == start <= p && Deleting(rest, start, f, p - start, kept, affected) && |gap| == affected
    && was == front + kept + gap + rest[p - start..]
  }

  lemma DeleteStep(was: seq<Record>, front: seq<Record>, rest: seq<Record>, start: nat, f: Callback, p: nat,
                   kept: seq<Record>, gap: seq<Record>, affected: nat)
    requires ToDelete(was, front, rest, start, f, p, kept, gap, affected) && p - start < |rest|
    ensures p < |was| && was[p] == rest[p - start]
    ensures var (verdict, x) := Call(f, was[p], p);
            if verdict == Match
            then ToDelete(was[p := x], front, rest, start, f, p + 1, kept, gap + [x], affected + 1)
            else ToDelete(was[p := x][p - affected := x], front, rest, start, f, p + 1, kept + [x], (gap + [x])[1..],
                          affected)
  {
    DeleteOne(rest, start, f, p - start, kept, affected);
    Slide(front, kept, gap, rest, p - start, Call(f, rest[p - start], p).1);
  }

  lemma DeleteEnds(was: seq<Record>, front: seq<Record>, rest: seq<Record>, start: nat, f: Callback, p: nat,
                   kept: seq<Record>, gap: seq<Record>, affected: nat)
    requires ToDelete(was, front, rest, start, f, p, kept, gap, affected) && p - start == |rest|
    ensures affected == Matched(rest, start, f, true) && affected <= |rest|
    ensures affected <= |was| && was[..|was| - affected] == front + Kept(rest, start, f)
  {
    assert rest[..|rest|] == rest && rest[|rest|..] == [];
    assert was == front + kept + gap;
  }

  /** The changing loop has come to `p`. */
  ghost predicate ToChange(was: seq<Record>, front: seq<Record>, rest: seq<Record>, start: nat, f: Callback, p: nat,
                           done: seq<Record>, affected: nat) {
    && |front| == start <= p && Changing(rest, start, f, p - start, done, affected)
    && was == front + done + rest[p - start..]
  }

  lemma ChangeStep(was: seq<Record>, front: seq<Record>, rest: seq<Record>, start: nat, f: Callback, p: nat,
                   done: seq<Record>, affected: nat)
    requires ToChange(was, front, rest, start, f, p, done, affected) && p - start < |rest|
    ensures p < |was| && was[p] == rest[p - start]
    ensures var (verdict, x) := Call(f, was[p], p);
            match verdict
            case Break => was[p := x] == front + Changed(rest, start, f) && affected == Matched(rest, start, f, false)
            case Match => ToChange(was[p := x], front, rest, start, f, p + 1, done + [x], affected + 1)
            case Continue => ToChange(was[p := x], front, rest, start, f, p + 1, done + [x], affected)
  {
    var (verdict, x) := Call(f, rest[p - start], p);
    Replace(front, done, rest, p - start, x);
    if verdict == Break {
      ChangeLast(rest, start, f, p - start, done, affected, front);
    } else {
      ChangeOne(rest, start, f, p - start, done, affected);
    }
  }

  /** What the write of the changing loop does to the file. */
  lemma Replace(front: seq<Record>, done: seq<Record>, rest: seq<Record>, i: nat, x: Record)
    requires i < |rest| && |done| == i
    ensures var all := front + done + rest[i..]; var p := |front| + i;
            p < |all| && all[p] == rest[i] && all[p := x] == front + (done + [x]) + rest[i + 1..]
  {}

  /** What the two writes of the delete loop do to the file. */
  lemma Slide(front: seq<Record>, kept: seq<Record>, gap: seq<Record>, rest: seq<Record>, i: nat, x: Record)
    requires i < |rest| && |kept| + |gap| == i
    ensures var all := front + kept + gap + rest[i..]; var p := |front| + i;
            && p < |all| && all[p] == rest[i]
            && all[p := x] == front + kept + (gap + [x]) + rest[i + 1..]
            && all[p := x][p - |gap| := x] == front + (kept + [x]) + (gap + [x])[1..] + rest[i + 1..]
  {}
}
