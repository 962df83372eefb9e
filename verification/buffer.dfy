/** The growable byte buffer the encoder appends to. */
module EncoderBuffer {
  import opened Bytes

  class Buffer {
    var data: array<byte>
    var size: nat

    ghost predicate Valid()
      reads this
    {
      size <= data.Length
    }

    ghost function Contents(): (s: seq<byte>)
      requires Valid()
      reads this, data
    {
      data[..size]
    }

    constructor (capacity: nat)
      ensures Valid() && fresh(data) && Contents() == []
    {
      data := new byte[capacity](_ => 0);
      size := 0;
    }

    /** Makes room for `required` bytes, doubling the capacity until it is enough. */
    method Reserve(required: nat)
      requires Valid()
      modifies this
      ensures Valid() && required <= data.Length && size == old(size)
      ensures data == old(data) || fresh(data)
      ensures Contents() == old(Contents())
    {
      if required <= data.Length {
        return;
      }
      var capacity := if data.Length == 0 then 4096 else data.Length;
      while capacity < required
        invariant capacity > 0 && capacity >= data.Length
        decreases required - capacity
      {
        capacity := capacity * 2;
      }
      var larger := new byte[capacity](i requires 0 <= i < capacity reads this, data => if i < data.Length then data[i] else 0);
      assert larger[..size] == data[..size];
      data := larger;
    }

    method Append(bytes: seq<byte>)
      requires Valid()
      modifies this, data
      ensures Valid() && (data == old(data) || fresh(data))
      ensures Contents() == old(Contents()) + bytes
    {
      Reserve(size + |bytes|);
      forall i | 0 <= i < |bytes| {
        data[size + i] := bytes[i];
      }
      size := size + |bytes|;
    }

    method AppendZero(length: nat)
      requires Valid()
      modifies this, data
      ensures Valid() && (data == old(data) || fresh(data))
      ensures Contents() == old(Contents()) + Zeros(length)
    {
      Append(Zeros(length));
    }

    method AlignTo(alignment: nat)
      requires Valid() && alignment in {1, 4, 8}
      modifies this, data
      ensures Valid() && (data == old(data) || fresh(data))
      ensures Contents() == old(Contents()) + Zeros(AlignUp(old(size), alignment) - old(size))
    {
      var aligned := AlignUp(size, alignment);
      if aligned == size {
        assert Contents() == Contents() + Zeros(0);
        return;
      }
      AppendZero(aligned - size);
    }

    /** Writes over bytes that are already there. */
    method Overwrite(offset: nat, bytes: seq<byte>)
      requires Valid() && offset + |bytes| <= size
      modifies data
      ensures Valid()
      ensures Contents() == Spliced(old(Contents()), offset, bytes)
    {
      forall i | 0 <= i < |bytes| {
        data[offset + i] := bytes[i];
      }
    }
  }

  /** `data` with `piece` put over the bytes at `offset`. */
  function Spliced(data: seq<byte>, offset: nat, piece: seq<byte>): (r: seq<byte>)
    requires offset + |piece| <= |data|
    ensures |r| == |data|
  {
    data[..offset] + piece + data[offset + |piece|..]
  }
}
