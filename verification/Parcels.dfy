/** The growing byte buffer of lib/parcel.c with its writers and readers. */
module Parcels {
  import opened MachineInts
  import opened ParcelFormat

  const DEFAULT_CAPACITY: nat := 4096

  /** `size_t` and `uint64_t` are below this. */
  const SIZE_LIMIT: nat := 0x1_0000_0000_0000_0000

  /** Conversion to `size_t`. */
  function ToSize(n: nat): (r: nat)
    ensures n < 0x1_0000_0000_0000_0000 ==> r == n
  {
    n % 0x1_0000_0000_0000_0000
  }

  class Parcel {
    var size: nat
    var capacity: nat
    var error: bool
    var ptr: array<byte>

    ghost predicate Valid()
      reads this
    {
      size <= capacity == ptr.Length
    }

    /** What has been written. */
    ghost function Contents(): Bytes
      requires Valid()
      reads this, ptr
    {
      ptr[..size]
    }

    /** What is left to read. */
    ghost function Rest(): Bytes
      requires Valid()
      reads this, ptr
    {
      ptr[size..]
    }

    /** `parcel_new` */
    constructor ()
      ensures Valid() && Contents() == [] && !error && capacity == DEFAULT_CAPACITY && fresh(ptr)
    {
      size, capacity, error := 0, DEFAULT_CAPACITY, false;
      ptr := new byte[DEFAULT_CAPACITY];
    }

    /** `parcel_read_new` */
    constructor ReadNew(bytes: array<byte>)
      ensures Valid() && Rest() == bytes[..] && !error && ptr == bytes
    {
      size, capacity, error, ptr := 0, bytes.Length, false, bytes;
    }

    /** `parcel_write`: the buffer doubles until the bytes fit; after an error nothing is written. */
    method Write(bytes: Bytes)
      requires Valid() && capacity > 0
      modifies this, ptr
      ensures Valid() && capacity > 0 && error == old(error)
      ensures Contents() == old(Contents()) + if error then [] else bytes
      ensures ptr == old(ptr) || fresh(ptr)
    {
      if error {
        return;
      }
      var newSize := size + |bytes|;
      if capacity < newSize {
        while capacity < newSize
          invariant old(capacity) <= capacity && size == old(size) && ptr == old(ptr) && !error
          invariant ptr[..] == old(ptr[..])
          decreases newSize - capacity
        {
          capacity := capacity * 2;
        }
        var larger := new byte[capacity](
          i requires 0 <= i < capacity reads this, ptr => if i < ptr.Length then ptr[i] else 0);
        ptr := larger;
      }
      forall i | 0 <= i < |bytes| {
        ptr[size + i] := bytes[i];
      }
      size := newSize;
    }

    /** `parcel_write_varuint64` */
    method WriteVaruint64(n: nat)
      requires Valid() && capacity > 0 && n < 0x1_0000_0000_0000_0000
      modifies this, ptr
      ensures Valid() && capacity > 0 && error == old(error)
      ensures Contents() == old(Contents()) + if error then [] else Varuint(n)
      ensures ptr == old(ptr) || fresh(ptr)
    {
      var buf := new byte[10](_ => 0);
      var cur := FillVaruint(buf, n);
      Write(buf[..cur]);
    }

    /** `parcel_write_varint` and `parcel_write_varint64` */
    method WriteVarint(v: int)
      requires Valid() && capacity > 0 && -0x8000_0000_0000_0000 <= v < 0x8000_0000_0000_0000
      modifies this, ptr
      ensures Valid() && capacity > 0 && error == old(error)
      ensures Contents() == old(Contents()) + if error then [] else Written(Signed(v))
      ensures ptr == old(ptr) || fresh(ptr)
    {
      ZigZagRoundTrip(v, 0x8000_0000_0000_0000);
      WriteVaruint64(ZigZag(v));
    }

    /** `parcel_write_bool` */
    method WriteBool(b: bool)
      requires Valid() && capacity > 0
      modifies this, ptr
      ensures Valid() && capacity > 0 && error == old(error)
      ensures Contents() == old(Contents()) + if error then [] else Written(Boolean(b))
      ensures ptr == old(ptr) || fresh(ptr)
    {
      Write([Flag(b)]);
    }

    /** `parcel_write_string`, the string given by its characters before the NUL */
    method WriteString(s: Bytes)
      requires Valid() && capacity > 0 && |s| < 0x1_0000_0000_0000_0000
      modifies this, ptr
      ensures Valid() && capacity > 0 && error == old(error)
      ensures Contents() == old(Contents()) + if error then [] else Written(Text(s))
      ensures ptr == old(ptr) || fresh(ptr)
    {
      WriteBool(false);
      WriteVaruint64(|s|);
      Write(s);
      Write([0]);
      TextAppended(old(Contents()), s);
    }

    /** `parcel_write_string` of a null pointer */
    method WriteNullString()
      requires Valid() && capacity > 0
      modifies this, ptr
      ensures Valid() && capacity > 0 && error == old(error)
      ensures Contents() == old(Contents()) + if error then [] else Written(NullText)
      ensures ptr == old(ptr) || fresh(ptr)
    {
      WriteBool(true);
    }

    /** `parcel_write_int` and `parcel_write_int64`, 4 and 8 bytes wide */
    method WriteInt(v: int, width: nat)
      requires Valid() && capacity > 0 && InRange(Fixed(v, width))
      modifies this, ptr
      ensures Valid() && capacity > 0 && error == old(error)
      ensures Contents() == old(Contents()) + if error then [] else Written(Fixed(v, width))
      ensures ptr == old(ptr) || fresh(ptr)
    {
      Write(Little(Wrap(v, Scale(width)), width));
    }

    // ----- reading

    /** `parcel_read_uchar`; its test passes at the end of the buffer too, where `after` is what it reads. */
    method ReadUchar(after: byte) returns (c: byte)
      requires size <= capacity + 1 && capacity == ptr.Length
      modifies this`size, this`error
      ensures old(size) < capacity ==> size == old(size) + 1 && error == old(error) && c == ptr[old(size)]
      ensures old(size) == capacity ==> size == capacity + 1 && error == old(error) && c == after
      ensures old(size) > capacity ==> size == old(size) && error && c == 0
    {
      if size <= capacity {
        c := if size < capacity then ptr[size] else after;
        size := size + 1;
      } else {
        error := true;
        c := 0;
      }
    }

    /** `parcel_read_varuint64` on a number that is all there */
    method ReadVaruint64(after: byte) returns (n: nat)
      requires Valid() && ReadVaruint(Rest()).Read? && ReadVaruint(Rest()).value < SIZE_LIMIT
      modifies this`size, this`error
      ensures Valid() && error == old(error) && Read(n, Rest()) == ReadVaruint(old(Rest()))
    {
      n := 0;
      var scale: nat := 1;
      while true
        invariant Valid() && error == old(error) && ReadSoFar(ReadVaruint(old(Rest())), Rest(), n, scale)
        decreases capacity - size
      {
        VaruintStep(ReadVaruint(old(Rest())), Rest(), n, scale);
        ghost var rest := Rest()[1..];
        var v := ReadUchar(after);
        assert Rest() == rest;
        if v >= 128 {
          n := n + scale * (v - 128);
          scale := scale * 128;
        } else {
          n := n + scale * v;
          break;
        }
      }
    }

    /** `parcel_read_varint64` on a number that is all there */
    method ReadVarint64(after: byte) returns (v: int)
      requires Valid() && ReadVaruint(Rest()).Read? && ReadVaruint(Rest()).value < SIZE_LIMIT
      modifies this`size, this`error
      ensures Valid() && error == old(error) && Read(Signed(v), Rest()) == ReadField(SignedKind, old(Rest()))
    {
      var n := ReadVaruint64(after);
      v := UnZigZag(n);
    }

    /** `parcel_read_bool` before the end */
    method ReadBool(after: byte) returns (b: bool)
      requires Valid() && Rest() != []
      modifies this`size, this`error
      ensures Valid() && error == old(error) && Read(Boolean(b), Rest()) == ReadField(BooleanKind, old(Rest()))
    {
      ghost var rest := Rest()[1..];
      var c := ReadUchar(after);
      assert Rest() == rest;
      b := c != 0;
    }

    /** `parcel_read_string_and_size`, its length all there: the string starts at `start` in the buffer. The end
        is computed in `size_t`; only there is a string longer than what is left noticed. */
    method ReadString(after: byte) returns (isNull: bool, start: nat, length: nat)
      requires Valid() && capacity < SIZE_LIMIT && Rest() != []
      requires Rest()[0] == 0 ==> ReadVaruint(Rest()[1..]).Read? && ReadVaruint(Rest()[1..]).value < SIZE_LIMIT
      modifies this`size, this`error
      ensures isNull == (old(Rest())[0] != 0)
      ensures !isNull ==>
                && start <= capacity && ReadVaruint(old(Rest())[1..]) == Read(length, ptr[start..])
                && size == ToSize(start + length + 1) && error == (old(error) || size > capacity)
      ensures match ReadField(TextKind, old(Rest()))
              case Malformed => start + length + 1 < SIZE_LIMIT ==> error
              case Read(f, rest) =>
                && Valid() && error == old(error) && rest == Rest() && (!isNull ==> start + length <= capacity)
                && f == if isNull then NullText else Text(ptr[start..start + length])
    {
      start, length := size, 0;
      ghost var all, pos := ptr[..], size;
      assert all[pos..][1..] == all[pos + 1..] && Rest() == all[pos..];
      isNull := ReadBool(after);
      if !isNull {
        length := ReadVaruint64(after);
        start := size;
        StringField(all, pos, start, length);
        size := ToSize(start + length + 1);
        if size > capacity {
          error := true;
        }
      }
    }

    /** `parcel_read` of 4 or 8 bytes, for `parcel_read_int` and `parcel_read_int64`: too few bytes are an error
        and read as 0. */
    method ReadInt(width: nat) returns (v: int)
      requires Valid()
      modifies this`size, this`error
      ensures Valid()
      ensures match ReadField(FixedKind(width), old(Rest()))
              case Read(f, rest) => error == old(error) && f == Fixed(v, width) && Rest() == rest
              case Malformed => error && v == 0 && Rest() == old(Rest())
    {
      if size + width <= capacity {
        v := Unwrap(FromLittle(ptr[size..size + width]), Scale(width));
        assert ptr[size..][..width] == ptr[size..size + width];
        assert ptr[size..][width..] == ptr[size + width..];
        size := size + width;
      } else {
        error := true;
        v := 0;
      }
    }
  }

  /** The loop of `parcel_write_varuint64` over its buffer of 10 bytes. */
  method FillVaruint(buf: array<byte>, n: nat) returns (cur: nat)
    requires buf.Length == 10 && n < 0x1_0000_0000_0000_0000
    modifies buf
    ensures cur <= 10 && buf[..cur] == Varuint(n)
  {
    cur := 0;
    var val := n;
    ghost var done: Bytes := [];
    TenBytes(n);
    while true
      invariant cur == |done| && done + Varuint(val) == Varuint(n) && buf[..cur] == done
      decreases val
    {
      VaruintParts(done, val);
      buf[cur] := val % 128;
      val := val / 128;
      if val != 0 {
        buf[cur] := buf[cur] + 128;
        done := done + [buf[cur]];
        cur := cur + 1;
      } else {
        break;
      }
    }
    cur := cur + 1;
    assert buf[..cur] == done + [buf[cur - 1]];
  }

  /** The first byte of a number, and the rest behind it. */
  lemma VaruintParts(done: Bytes, n: nat)
    ensures n < 128 ==> done + Varuint(n) == done + [n % 128] && |Varuint(n)| == 1 && n / 128 == 0
    ensures n >= 128 ==> done + Varuint(n) == done + [n % 128 + 128] + Varuint(n / 128)
    ensures n >= 128 ==> |Varuint(n)| == 1 + |Varuint(n / 128)| && |Varuint(n / 128)| > 0
  {
    if n >= 128 {
      var first, rest := [n % 128 + 128], Varuint(n / 128);
      assert Varuint(n) == first + rest;
      assert done + (first + rest) == done + first + rest;
    } else {
      assert Varuint(n) == [n % 128];
    }
  }

  lemma TextAppended(before: Bytes, s: Bytes)
    ensures before + Written(Boolean(false)) + Varuint(|s|) + s + [0] == before + Written(Text(s))
  {
    Append4(before, [Flag(false)], Varuint(|s|), s, [0]);
  }

  lemma Append4(before: Bytes, a: Bytes, b: Bytes, c: Bytes, d: Bytes)
    ensures before + a + b + c + d == before + (a + b + c + d)
  {
  }

  /** `n` has been read, and what is left counts `scale` times. */
  ghost predicate ReadSoFar(all: Read<nat>, s: Bytes, n: nat, scale: nat) {
    ReadVaruint(s).Read? && all == Read(n + scale * ReadVaruint(s).value, ReadVaruint(s).rest)
  }

  /** One byte more. */
  lemma VaruintStep(all: Read<nat>, s: Bytes, n: nat, scale: nat)
    requires ReadSoFar(all, s, n, scale)
    ensures s != []
    ensures s[0] >= 128 ==> scale * (s[0] - 128) >= 0 && ReadSoFar(all, s[1..], n + scale * (s[0] - 128), scale * 128)
    ensures s[0] < 128 ==> all == Read(n + scale * s[0], s[1..])
  {
    if s[0] >= 128 {
      Distribute(n, scale, s[0] - 128, ReadVaruint(s[1..]).value);
    }
  }

  lemma Distribute(n: int, scale: int, low: int, high: int)
    ensures n + scale * low + scale * 128 * high == n + scale * (low + 128 * high)
  {
  }

  /** A string field by its places in the buffer. */
  lemma StringField(all: Bytes, pos: nat, start: nat, length: nat)
    requires pos < |all| && start <= |all| && all[pos] == 0
    requires ReadVaruint(all[pos..][1..]) == Read(length, all[start..])
    ensures ReadField(TextKind, all[pos..]) ==
              if start + length < |all| then Read(Text(all[start..start + length]), all[start + length + 1..])
              else Malformed
  {
    if start + length < |all| {
      assert all[start..][..length] == all[start..start + length];
      assert all[start..][length + 1..] == all[start + length + 1..];
    }
  }
}
