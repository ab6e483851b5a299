/** The packed form of read marks (lib/boardrc.c): records of a 20 byte name, a count and that many
    32-bit items, one after the other. */
module MarkRecords {
  import opened MachineInts
  import opened ReadMarks

  const BRC_BUFSIZE := 50000
  const BRC_STRLEN := 20
  const HEADER := 21
  /** longest record */
  const BRC_ITEMSIZE := HEADER + BRC_MAXNUM * 4

  type Name = seq<byte>

  datatype Rec = Rec(name: Name, items: seq<u32>)

  predicate Printable(c: byte) {
    32 <= c <= 126
  }

  /** A name that fits its field, ends there, and does not stop the scan of the buffer. */
  predicate GoodName(n: Name) {
    0 < |n| < BRC_STRLEN && Printable(n[0]) && forall i :: 0 <= i < |n| ==> n[i] != 0
  }

  predicate GoodRec(r: Rec) {
    GoodName(r.name) && 0 < |r.items| <= BRC_MAXNUM
  }

  function Size(r: Rec): nat {
    HEADER + 4 * |r.items|
  }

  // ----- one item, least significant byte first

  function LeByte(x: u32, k: nat): byte
    requires k < 4
  {
    if k == 0 then x % 256 else if k == 1 then x / 256 % 256 else if k == 2 then x / 65536 % 256 else x / 16777216
  }

  function FromLe(b0: byte, b1: byte, b2: byte, b3: byte): u32 {
    b0 + 256 * b1 + 65536 * b2 + 16777216 * b3
  }

  lemma LeRoundTrip(x: u32)
    ensures FromLe(LeByte(x, 0), LeByte(x, 1), LeByte(x, 2), LeByte(x, 3)) == x
  {
    assert x == x % 256 + 256 * (x / 256);
    assert x / 256 == x / 256 % 256 + 256 * (x / 65536);
    assert x / 65536 == x / 65536 % 256 + 256 * (x / 16777216);
  }

  /** The low byte comes first. */
  lemma LowByteFirst(x: u32)
    ensures var b0, b1, b2, b3: int := LeByte(x, 0), LeByte(x, 1), LeByte(x, 2), LeByte(x, 3);
            x as int == b0 + 256 * b1 + 65536 * b2 + 16777216 * b3
  {
    LeRoundTrip(x);
  }

  // ----- reading a record at an offset

  /** `strlcpy` into a field of `max + 1` bytes. */
  function CString(b: seq<byte>, off: nat, max: nat): Name
    requires off + max <= |b|
    decreases max
  {
    if max == 0 || b[off] == 0 then [] else [b[off]] + CString(b, off + 1, max - 1)
  }

  function CountAt(b: seq<byte>, off: nat): (n: nat)
    requires off + HEADER <= |b|
    ensures n <= BRC_MAXNUM
  {
    Min(b[off + BRC_STRLEN], BRC_MAXNUM)
  }

  function ItemAt(b: seq<byte>, off: nat): u32
    requires off + 4 <= |b|
  {
    FromLe(b[off], b[off + 1], b[off + 2], b[off + 3])
  }

  function ItemsAt(b: seq<byte>, off: nat, n: nat): (s: seq<u32>)
    requires off + 4 * n <= |b|
    ensures |s| == n
  {
    seq(n, i requires 0 <= i < n => ItemAt(b, off + 4 * i))
  }

  predicate Readable(b: seq<byte>, off: nat) {
    off + HEADER <= |b| && off + HEADER + 4 * CountAt(b, off) <= |b|
  }

  function RecAt(b: seq<byte>, off: nat): Rec
    requires Readable(b, off)
  {
    Rec(CString(b, off, BRC_STRLEN - 1), ItemsAt(b, off + HEADER, CountAt(b, off)))
  }

  function NextAt(b: seq<byte>, off: nat): nat
    requires Readable(b, off)
  {
    off + HEADER + 4 * CountAt(b, off)
  }

  /** The bytes from `off` to `end` are exactly the records `recs`. */
  ghost predicate Laid(b: seq<byte>, off: nat, end: nat, recs: seq<Rec>)
    decreases |recs|
  {
    if recs == [] then off == end
    else
      && off < end <= |b| && Readable(b, off)
      && RecAt(b, off) == recs[0] && GoodRec(recs[0])
      && NextAt(b, off) <= end
      && Laid(b, NextAt(b, off), end, recs[1..])
  }

  function TotalSize(recs: seq<Rec>): nat {
    if recs == [] then 0 else Size(recs[0]) + TotalSize(recs[1..])
  }

  /** A record determines its own extent. */
  lemma RecExtent(b: seq<byte>, off: nat)
    requires Readable(b, off)
    ensures NextAt(b, off) == off + Size(RecAt(b, off))
  {}

  lemma {:induction false} LaidSize(b: seq<byte>, off: nat, end: nat, recs: seq<Rec>)
    requires Laid(b, off, end, recs)
    ensures end == off + TotalSize(recs)
    decreases |recs|
  {
    if recs != [] {
      RecExtent(b, off);
      LaidSize(b, NextAt(b, off), end, recs[1..]);
    }
  }

  /** Only the bytes of a record matter to it. */
  lemma SameRec(b: seq<byte>, c: seq<byte>, off: nat)
    requires Readable(b, off) && |c| >= NextAt(b, off)
    requires forall i :: off <= i < NextAt(b, off) ==> c[i] == b[i]
    ensures Readable(c, off) && NextAt(c, off) == NextAt(b, off) && RecAt(c, off) == RecAt(b, off)
  {
    assert c[off + BRC_STRLEN] == b[off + BRC_STRLEN];
    SameCString(b, c, off, BRC_STRLEN - 1);
    forall i | 0 <= i < CountAt(b, off) ensures ItemAt(c, off + HEADER + 4 * i) == ItemAt(b, off + HEADER + 4 * i) {
      var p := off + HEADER + 4 * i;
      assert c[p] == b[p] && c[p + 1] == b[p + 1] && c[p + 2] == b[p + 2] && c[p + 3] == b[p + 3];
    }
  }

  lemma {:induction false} SameCString(b: seq<byte>, c: seq<byte>, off: nat, max: nat)
    requires off + max <= |b| && off + max <= |c|
    requires forall i :: off <= i < off + max ==> c[i] == b[i]
    ensures CString(b, off, max) == CString(c, off, max)
    decreases max
  {
    if max > 0 && b[off] != 0 {
      SameCString(b, c, off + 1, max - 1);
    }
  }

  lemma {:induction false} SameLaid(b: seq<byte>, c: seq<byte>, off: nat, end: nat, recs: seq<Rec>)
    requires Laid(b, off, end, recs) && end <= |b| && end <= |c|
    requires forall i :: off <= i < end ==> c[i] == b[i]
    ensures Laid(c, off, end, recs)
    decreases |recs|
  {
    if recs != [] {
      SameRec(b, c, off);
      SameLaid(b, c, NextAt(b, off), end, recs[1..]);
    }
  }

  lemma {:induction false} LaidAppend(b: seq<byte>, off: nat, mid: nat, end: nat, front: seq<Rec>, back: seq<Rec>)
    requires Laid(b, off, mid, front) && Laid(b, mid, end, back)
    ensures Laid(b, off, end, front + back)
    decreases |front|
  {
    if front == [] {
      assert front + back == back;
    } else {
      assert (front + back)[1..] == front[1..] + back;
      LaidSize(b, mid, end, back);
      LaidAppend(b, NextAt(b, off), mid, end, front[1..], back);
      if back != [] { assert end <= |b|; }
    }
  }

  // ----- writing a record at an offset

  /** `b` holds the bytes that `brc_put_record` writes for `r` at `off`; the rest of the name field
      after the terminating NUL is not written. */
  ghost predicate Written(b: seq<byte>, off: nat, r: Rec) {
    && GoodRec(r) && off + Size(r) <= |b|
    && (forall i :: 0 <= i < |r.name| ==> b[off + i] == r.name[i])
    && b[off + |r.name|] == 0
    && b[off + BRC_STRLEN] == |r.items|
    && (forall i, k :: 0 <= i < |r.items| && 0 <= k < 4 ==> b[off + HEADER + 4 * i + k] == LeByte(r.items[i], k))
  }

  /** What is written is read back. */
  lemma WrittenIsRead(b: seq<byte>, off: nat, r: Rec)
    requires Written(b, off, r)
    ensures Readable(b, off) && RecAt(b, off) == r && NextAt(b, off) == off + Size(r)
  {
    WrittenName(b, off, r.name, BRC_STRLEN - 1);
    forall i | 0 <= i < |r.items| ensures ItemAt(b, off + HEADER + 4 * i) == r.items[i] {
      var p := off + HEADER + 4 * i;
      assert b[p + 0] == LeByte(r.items[i], 0) && b[p + 1] == LeByte(r.items[i], 1);
      assert b[p + 2] == LeByte(r.items[i], 2) && b[p + 3] == LeByte(r.items[i], 3);
      LeRoundTrip(r.items[i]);
    }
    assert ItemsAt(b, off + HEADER, |r.items|) == r.items;
  }

  lemma {:induction false} WrittenName(b: seq<byte>, off: nat, n: Name, max: nat)
    requires |n| <= max && off + max < |b|
    requires forall i :: 0 <= i < |n| ==> b[off + i] == n[i] && n[i] != 0
    requires b[off + |n|] == 0
    ensures CString(b, off, max) == n
    decreases |n|
  {
    if n != [] {
      assert b[off] == n[0];
      forall i | 0 <= i < |n[1..]| ensures b[off + 1 + i] == n[1..][i] && n[1..][i] != 0 {
        assert b[off + (i + 1)] == n[i + 1];
      }
      WrittenName(b, off + 1, n[1..], max - 1);
    }
  }
}
