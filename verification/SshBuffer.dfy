/** The byte queue of libssh/buffer.c: bytes are added at `used` and consumed at `pos`. */
module SshBuffer {
  import opened MachineInts

  /** Beyond this size the doubling loop of `realloc_buffer` leaves the range of `int`. */
  const BUFFER_LIMIT := 0x4000_0000

  ghost predicate PowerOfTwo(n: nat) {
    n == 1 || (n > 1 && n % 2 == 0 && PowerOfTwo(n / 2))
  }

  /** The size `realloc_buffer` picks: a power of two that is enough, and half of which is not. */
  ghost predicate SmallestPower(n: nat, needed: nat) {
    PowerOfTwo(n) && needed <= n && (n > 1 ==> n / 2 < needed)
  }

  class Buffer {
    var data: array<byte>
    var used: nat
    var pos: nat

    ghost predicate Valid()
      reads this
    {
      pos <= used <= data.Length && used <= BUFFER_LIMIT
    }

    /** The bytes added and not yet consumed, oldest first. */
    ghost function Rest(): seq<byte>
      requires Valid()
      reads this, data
    {
      data[pos..used]
    }

    constructor ()
      ensures Valid() && fresh(data) && Rest() == [] && pos == 0
    {
      data := new byte[0];
      used, pos := 0, 0;
    }

    method ReallocBuffer(needed: nat)
      requires Valid() && used <= needed <= BUFFER_LIMIT
      modifies this`data
      ensures Valid() && fresh(data) && SmallestPower(data.Length, needed)
      ensures data[..used] == old(data[..used])
    {
      var smallest := 1;
      while smallest < needed
        invariant PowerOfTwo(smallest) && (smallest > 1 ==> smallest / 2 < needed)
        invariant smallest <= BUFFER_LIMIT * 2
      {
        smallest := smallest * 2;
      }
      var bigger := new byte[smallest];
      forall i | 0 <= i < used {
        bigger[i] := data[i];
      }
      data := bigger;
    }

    method Reinit()
      requires Valid()
      modifies this, data
      ensures Valid() && (data == old(data) || fresh(data))
      ensures Rest() == [] && pos == 0
      ensures data.Length == if old(data.Length) > 127 then 128 else old(data.Length)
    {
      forall i | 0 <= i < used {
        data[i] := 0;
      }
      used, pos := 0, 0;
      if data.Length > 127 {
        ReallocBuffer(127);
        SmallestPowerOf127(data.Length);
      }
    }

    method AddData(bytes: seq<byte>)
      requires Valid() && used + |bytes| <= BUFFER_LIMIT
      modifies this, data
      ensures Valid() && (data == old(data) || fresh(data))
      ensures Rest() == old(Rest()) + bytes
      ensures pos == old(pos)
      ensures if old(data.Length) < old(used) + |bytes|
              then SmallestPower(data.Length, old(used) + |bytes|)
              else data == old(data)
    {
      ghost var before := data[..used];
      if data.Length < used + |bytes| {
        ReallocBuffer(used + |bytes|);
      }
      assert data[..used] == before;
      forall i | 0 <= i < |bytes| {
        data[used + i] := bytes[i];
      }
      used := used + |bytes|;
      assert data[..used] == before + bytes;
      assert data[pos..used] == (before + bytes)[pos..];
    }

    /** Eats `len` bytes, or nothing when fewer than that remain. */
    method PassBytes(len: nat) returns (eaten: nat)
      requires Valid()
      modifies this
      ensures Valid() && data == old(data)
      ensures eaten == if len <= |old(Rest())| then len else 0
      ensures Rest() == old(Rest())[eaten..]
      ensures eaten == len && Rest() == [] ==> pos == 0
      ensures eaten == len && Rest() != [] ==> pos == old(pos) + len
      ensures eaten != len ==> pos == old(pos)
    {
      if used < pos + len {
        return 0;
      }
      pos := pos + len;
      if pos == used {
        pos, used := 0, 0;
      }
      return len;
    }

    /** Copies out exactly `len` bytes and consumes them, or fails and consumes nothing. */
    method GetData(len: nat) returns (bytes: seq<byte>, got: nat)
      requires Valid()
      modifies this`pos
      ensures Valid()
      ensures got == if len <= |old(Rest())| then len else 0
      ensures bytes == old(Rest())[..got]
      ensures Rest() == old(Rest())[got..]
    {
      if pos + len > used {
        return [], 0;
      }
      bytes := data[pos..pos + len];
      pos := pos + len;
      return bytes, len;
    }

    method GetRestLen() returns (n: nat)
      requires Valid()
      ensures n == |Rest()|
    {
      n := used - pos;
    }

    method GetRest() returns (bytes: seq<byte>)
      requires Valid()
      ensures bytes == Rest()
    {
      bytes := data[pos..used];
    }
  }

  lemma SmallestPowerOf127(n: nat)
    requires SmallestPower(n, 127)
    ensures n == 128
  {
    assert n % 2 == 0 && PowerOfTwo(n / 2) && 63 <= n / 2 <= 126;
    assert n / 2 % 2 == 0 && PowerOfTwo(n / 4) && 31 <= n / 4 <= 63;
    assert n / 4 % 2 == 0 && PowerOfTwo(n / 8) && 15 <= n / 8 <= 31;
    assert n / 8 % 2 == 0 && PowerOfTwo(n / 16) && 7 <= n / 16 <= 15;
    assert n / 16 % 2 == 0 && PowerOfTwo(n / 32) && 3 <= n / 32 <= 7;
    assert n / 32 % 2 == 0 && PowerOfTwo(n / 64) && n / 64 == 2;
  }
}
