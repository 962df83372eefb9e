/** One serialisation's nodes buffer and string pool, and the single steps the encoder makes on them. */
module EncoderSession {
  import opened Bytes
  import opened EncoderBuffer
  import opened PoolLayout
  import opened StringPool

  /** What the encoder has produced so far. */
  datatype Product = Product(bytes: seq<byte>, strings: seq<Str>, fixups: seq<nat>)

  class Session {
    const nodes: Buffer
    const pool: Pool
    ghost var Repr: set<object>

    ghost predicate Valid()
      reads this, Repr
    {
      && this in Repr && nodes in Repr && nodes.data in Repr
      && pool in Repr && pool.buffer in Repr && pool.buffer.data in Repr && pool.slots in Repr
      && nodes.Valid() && pool.Valid()
      && nodes != pool.buffer && nodes.data != pool.buffer.data && nodes.data as object != pool.slots as object
    }

    ghost function Made(): (p: Product)
      requires Valid()
      reads this, Repr
    {
      Product(nodes.Contents(), pool.strings, pool.fixups)
    }

    constructor (hash: Hash64, workerCount: nat)
      ensures Valid() && fresh(Repr)
      ensures pool.hash == hash && pool.workerCount == workerCount && Made() == Product([], [], [])
    {
      nodes := new Buffer(4096);
      pool := new Pool(hash, workerCount);
      new;
      Repr := {this, nodes, nodes.data, pool, pool.buffer, pool.buffer.data, pool.slots};
    }

    // ----- single steps -----

    function Size(): (n: nat)
      requires Valid()
      reads this, Repr
      ensures n == |Made().bytes|
    {
      nodes.size
    }

    function NodesData(): (r: seq<byte>)
      requires Valid()
      reads this, Repr
      ensures r == Made().bytes
    {
      nodes.data[..nodes.size]
    }

    function PoolData(): (r: seq<byte>)
      requires Valid()
      reads this, Repr
      ensures r == PoolBytes(Made().strings)
    {
      pool.buffer.data[..pool.buffer.size]
    }

    function StringsCount(): (n: nat)
      requires Valid()
      reads this, Repr
      ensures n == |Made().strings|
    {
      |pool.entries|
    }

    function FixupOffsets(): (r: seq<nat>)
      requires Valid()
      reads this, Repr
      ensures r == Made().fixups
    {
      pool.fixups
    }

    method Append(bytes: seq<byte>)
      requires Valid()
      modifies Repr
      ensures Valid() && fresh(Repr - old(Repr))
      ensures Made() == old(Made()).(bytes := old(Made()).bytes + bytes)
    {
      nodes.Append(bytes);
      Repr := Repr + {nodes.data};
    }

    method AppendZero(count: nat)
      requires Valid()
      modifies Repr
      ensures Valid() && fresh(Repr - old(Repr))
      ensures Made() == old(Made()).(bytes := old(Made()).bytes + Zeros(count))
    {
      nodes.AppendZero(count);
      Repr := Repr + {nodes.data};
    }

    method AlignTo(alignment: nat)
      requires Valid() && alignment in {1, 4, 8}
      modifies Repr
      ensures Valid() && fresh(Repr - old(Repr))
      ensures Made() == old(Made()).(bytes := old(Made()).bytes
        + Zeros(AlignUp(|old(Made()).bytes|, alignment) - |old(Made()).bytes|))
    {
      nodes.AlignTo(alignment);
      Repr := Repr + {nodes.data};
    }

    method Overwrite(offset: nat, bytes: seq<byte>)
      requires Valid() && offset + |bytes| <= |Made().bytes|
      modifies Repr
      ensures Valid() && Repr == old(Repr)
      ensures Made() == old(Made()).(bytes := Spliced(old(Made()).bytes, offset, bytes))
    {
      nodes.Overwrite(offset, bytes);
    }

    method RecordFixup(offset: nat)
      requires Valid()
      modifies Repr
      ensures Valid() && Repr == old(Repr)
      ensures Made() == old(Made()).(fixups := old(Made()).fixups + [offset])
    {
      pool.RecordFixup(offset);
    }

    method Intern(data: Str, rawHash: u64) returns (r: Result<u32>)
      requires Valid() && rawHash == pool.hash(data)
      modifies Repr
      ensures Valid() && fresh(Repr - old(Repr))
      ensures r == Outcome(old(Made()).strings, data)
      ensures r.Ok? ==> Made() == old(Made()).(strings := Interned(old(Made()).strings, data))
      ensures r.Ok? ==> r.value == OffsetOf(Made().strings, data)
      ensures r.Err? ==> Made() == old(Made())
    {
      r := pool.InternWithHash(data, rawHash);
      Repr := Repr + {pool.buffer.data, pool.slots};
    }
  }
}
