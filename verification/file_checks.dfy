/** Which buffers are opened, and which status each other one gets, said of the bytes themselves. */
module FileChecks {
  import opened Bytes
  import opened Format
  import opened Options
  import R = Reader
  import V = Verify

  // ----- the checks, on the bytes -----

  ghost predicate HasFrame(data: seq<byte>) {
    |data| >= 160
  }

  /** "HRBL". */
  ghost predicate MagicOk(data: seq<byte>)
    requires HasFrame(data)
  {
    Load32(data, 0) == 0x4C42_5248
  }

  ghost predicate VersionOk(data: seq<byte>)
    requires HasFrame(data)
  {
    Load16(data, 4) == 1 && Load16(data, 6) == 0
  }

  ghost predicate FlagsOk(data: seq<byte>)
    requires HasFrame(data)
  {
    Load64(data, 16) == 0xF
  }

  ghost predicate SizeOk(data: seq<byte>)
    requires HasFrame(data)
  {
    Load64(data, 8) == |data|
  }

  ghost predicate ReservedOk(data: seq<byte>)
    requires HasFrame(data)
  {
    forall i :: 104 <= i < 128 ==> data[i] == 0
  }

  /** Root index behind the header, then nodes, pool and footer, each offset the sum of the one before and its size in 64 bits. */
  ghost predicate PlacesOk(data: seq<byte>)
    requires HasFrame(data)
  {
    && Load64(data, 32) == 128
    && Load64(data, 24) <= 0x0AAA_AAAA_AAAA_AAAA
    && Load64(data, 40) == 24 * Load64(data, 24)
    && Load64(data, 48) == (128 + Load64(data, 40)) % 0x1_0000_0000_0000_0000
    && Load64(data, 64) == (Load64(data, 48) + Load64(data, 56)) % 0x1_0000_0000_0000_0000
    && Load64(data, 88) == (Load64(data, 64) + Load64(data, 72)) % 0x1_0000_0000_0000_0000
    && (Load64(data, 88) + 32) % 0x1_0000_0000_0000_0000 == Load64(data, 8)
  }

  ghost predicate HeaderOk(data: seq<byte>)
    requires HasFrame(data)
  {
    MagicOk(data) && VersionOk(data) && FlagsOk(data) && SizeOk(data) && ReservedOk(data) && PlacesOk(data)
  }

  /** The footer's checksum, file size and magic. */
  ghost predicate FooterOk(data: seq<byte>)
    requires HasFrame(data)
  {
    var footer := Load64(data, 88);
    && footer + 32 <= |data|
    && Load64(data, footer) == Load64(data, 96) && Load64(data, footer + 8) == Load64(data, 8)
    && Load32(data, footer + 16) == 0x4C42_5248
  }

  /** The checksum is that of everything between header and footer. */
  ghost predicate ChecksumOk(data: seq<byte>, hash: Hash64)
    requires HasFrame(data)
  {
    var footer := Load64(data, 88);
    128 <= footer <= |data| && Load64(data, 96) == hash(data[128..footer])
  }

  // ----- what they decide -----

  lemma HeaderOnBytes(data: seq<byte>)
    requires HasFrame(data)
    ensures var h := LoadHeader(data);
      && (h.magic == MAGIC <==> MagicOk(data))
      && (h.versionMajor == VERSION_MAJOR && h.versionMinor <= VERSION_MINOR <==> VersionOk(data))
      && (h.flags == FLAGS_REQUIRED <==> FlagsOk(data))
      && (h.fileSize == |data| <==> SizeOk(data))
      && (h.reserved == Zeros(|h.reserved|) <==> ReservedOk(data))
      && (LayoutOk(h) <==> PlacesOk(data))
      && h.checksum == Load64(data, 96) && h.footerOffset == Load64(data, 88)
  {
    hide Load32, Load64, Load16;
    ReservedOnBytes(data);
    CountFits(Load64(data, 24));
  }

  lemma ReservedOnBytes(data: seq<byte>)
    requires HasFrame(data)
    ensures data[104..128] == Zeros(24) <==> ReservedOk(data)
  {
    if data[104..128] == Zeros(24) {
      forall i | 104 <= i < 128
        ensures data[i] == 0
      {
        assert data[i] == data[104..128][i - 104];
      }
    }
  }

  lemma CountFits(n: u64)
    ensures n <= ROOT_COUNT_MAX <==> n <= 0x0AAA_AAAA_AAAA_AAAA
    ensures n <= ROOT_COUNT_MAX ==> n * ENTRY_SIZE % TWO_64 == 24 * n
  {
  }

  lemma AcceptedOnBytes(data: seq<byte>)
    requires HasFrame(data)
    ensures R.HeaderAccepted(LoadHeader(data), |data|) <==> HeaderOk(data)
    ensures HeaderOk(data) ==> Load64(data, 88) + 32 == |data|
    ensures HeaderOk(data) ==> (R.Open(data).Some? <==> FooterOk(data))
  {
    hide LoadHeader, Load32, Load64, Load16, LayoutOk, MagicOk, VersionOk, FlagsOk, ReservedOk, PlacesOk;
    HeaderOnBytes(data);
    if HeaderOk(data) {
      R.FooterInside(LoadHeader(data), |data|);
      FooterOnBytes(data);
    }
  }

  lemma FooterOnBytes(data: seq<byte>)
    requires HasFrame(data) && SizeOk(data) && Load64(data, 88) + 32 == |data|
    ensures LoadHeader(data).footerOffset == Load64(data, 88) && (R.FooterMatches(data, LoadHeader(data)) <==> FooterOk(data))
  {
    hide Load32, Load64, Load16;
  }

  /** The reader opens exactly the buffers whose header and footer are right, word for word. */
  lemma OpensExactly(data: seq<byte>)
    ensures R.Open(data).Some? <==> HasFrame(data) && HeaderOk(data) && FooterOk(data)
  {
    hide LoadHeader, HeaderOk, FooterOk, R.FooterMatches;
    if HasFrame(data) {
      AcceptedOnBytes(data);
    }
  }

  lemma HeaderStatusOnBytes(data: seq<byte>)
    requires HasFrame(data)
    ensures var s := V.HeaderStatus(LoadHeader(data), |data|);
      && (s == V.BadMagic <==> !MagicOk(data))
      && (s == V.BadVersion <==> MagicOk(data) && !VersionOk(data))
      && (s == V.BadFlags <==> MagicOk(data) && VersionOk(data) && (!FlagsOk(data) || (SizeOk(data) && !ReservedOk(data))))
      && (s == V.BadFileSize <==> MagicOk(data) && VersionOk(data) && FlagsOk(data) && !SizeOk(data))
      && (s == V.BadLayout <==>
            MagicOk(data) && VersionOk(data) && FlagsOk(data) && SizeOk(data) && ReservedOk(data) && !PlacesOk(data))
      && (s == V.Accepted <==> HeaderOk(data))
      && s in {V.BadMagic, V.BadVersion, V.BadFlags, V.BadFileSize, V.BadLayout, V.Accepted}
  {
    hide LoadHeader, LayoutOk, MagicOk, VersionOk, FlagsOk, SizeOk, ReservedOk, PlacesOk;
    HeaderOnBytes(data);
  }

  lemma LaterStatuses(data: seq<byte>)
    requires HasFrame(data)
    ensures var h := LoadHeader(data);
      && V.PoolOutcome(V.PoolThere(data, h), h.stringsSize, h.stringsCount)
           in {V.Outside, V.Done(V.Accepted), V.Done(V.BadString), V.Done(V.BadUtf8)}
      && V.RootsOutcome(R.Handle(data, h), h.rootCount)
           in {V.Outside, V.Done(V.Accepted), V.Done(V.BadRootIndex), V.Done(V.DuplicateKey)}
  {
    hide LoadHeader, V.PoolThere, V.Leaves, V.PoolOk, V.BreaksAtUtf8, V.RootsOk, V.RootsLeave, V.RepeatsFirst;
  }

  /** Each status up to the checksum is given exactly when its check is the first that fails. */
  lemma StatusOfBytes(data: seq<byte>, hash: Hash64)
    ensures V.BufferOutcome(data, hash) == V.Done(V.TooSmall) <==> |data| < 160
    ensures |data| >= 160 ==>
      && (V.BufferOutcome(data, hash) == V.Done(V.BadMagic) <==> !MagicOk(data))
      && (V.BufferOutcome(data, hash) == V.Done(V.BadVersion) <==> MagicOk(data) && !VersionOk(data))
      && (V.BufferOutcome(data, hash) == V.Done(V.BadFlags) <==>
            MagicOk(data) && VersionOk(data) && (!FlagsOk(data) || (SizeOk(data) && !ReservedOk(data))))
      && (V.BufferOutcome(data, hash) == V.Done(V.BadFileSize) <==> MagicOk(data) && VersionOk(data) && FlagsOk(data) && !SizeOk(data))
      && (V.BufferOutcome(data, hash) == V.Done(V.BadLayout) <==>
            MagicOk(data) && VersionOk(data) && FlagsOk(data) && SizeOk(data) && ReservedOk(data) && !PlacesOk(data))
      && (V.BufferOutcome(data, hash) == V.Done(V.BadFooter) <==> HeaderOk(data) && !FooterOk(data))
      && (V.BufferOutcome(data, hash) == V.Done(V.BadChecksum) <==> HeaderOk(data) && FooterOk(data) && !ChecksumOk(data, hash))
      && (V.ReachesPool(data, hash) <==> HeaderOk(data) && FooterOk(data) && ChecksumOk(data, hash))
  {
    hide LoadHeader, Load32, Load64, Load16, LayoutOk, MagicOk, VersionOk, FlagsOk, SizeOk, ReservedOk, PlacesOk, FooterOk,
         V.PoolOutcome, V.RootsOutcome, R.Open;
    OpensExactly(data);
    if |data| >= 160 {
      HeaderOnBytes(data);
      AcceptedOnBytes(data);
      LaterStatuses(data);
      HeaderStatusOnBytes(data);
    }
  }

  // ----- the root index, on the bytes -----

  /** What an entry of the root index is asked, word for word, and its hash. */
  lemma RootEntryOnBytes(data: seq<byte>, i: nat)
    requires HasFrame(data) && 128 + 24 * i + 24 <= |data|
    ensures var r, e := R.Handle(data, LoadHeader(data)), 128 + 24 * i;
      && V.RootHash(r, i) == Load64(data, e)
      && (V.RootOk(r, i) <==>
            && Load64(data, 48) <= Load64(data, e + 16) < Load64(data, 64)
            && Load64(data, 64) <= Load32(data, e + 8)
            && Load32(data, e + 8) + 4 + Load32(data, e + 12) <= Load64(data, 64) + Load64(data, 72))
  {
    hide Load32, Load64, Load16;
  }

  ghost predicate EntryInside(data: seq<byte>, i: nat) {
    128 + 24 * i + 24 <= |data|
  }

  function HashOf(data: seq<byte>, i: nat): (h: u64)
    requires EntryInside(data, i)
  {
    Load64(data, 128 + 24 * i)
  }

  /** An entry's value is in the nodes section, its key in the pool. */
  ghost predicate EntryPoints(data: seq<byte>, i: nat)
    requires HasFrame(data) && EntryInside(data, i)
  {
    var e := 128 + 24 * i;
    && Load64(data, 48) <= Load64(data, e + 16) < Load64(data, 64)
    && Load64(data, 64) <= Load32(data, e + 8)
    && Load32(data, e + 8) + 4 + Load32(data, e + 12) <= Load64(data, 64) + Load64(data, 72)
  }

  /** The first `n` entries are there and point into their sections, each hash above the one before. */
  ghost predicate EntriesOk(data: seq<byte>, n: nat)
    requires HasFrame(data)
  {
    forall i: nat :: i < n ==> EntryOk(data, i)
  }

  ghost predicate EntryOk(data: seq<byte>, i: nat)
    requires HasFrame(data)
  {
    EntryInside(data, i) && EntryPoints(data, i) && (i > 0 ==> HashOf(data, i - 1) < HashOf(data, i))
  }

  /** Entry `i` is the first that is wrong, and has the hash of the one before. */
  ghost predicate RepeatsHash(data: seq<byte>, i: nat)
    requires HasFrame(data)
  {
    i > 0 && EntriesOk(data, i) && EntryInside(data, i) && HashOf(data, i) == HashOf(data, i - 1)
  }

  /** Entry `i` is the first that is wrong, and has a lower hash, or points elsewhere with a hash that is higher. */
  ghost predicate MisplacedEntry(data: seq<byte>, i: nat)
    requires HasFrame(data)
  {
    && EntriesOk(data, i) && EntryInside(data, i)
    && ((i > 0 && HashOf(data, i) < HashOf(data, i - 1))
        || (!EntryPoints(data, i) && (i > 0 ==> HashOf(data, i - 1) < HashOf(data, i))))
  }

  lemma {:induction false} RootsOnBytes(data: seq<byte>, n: nat)
    requires HasFrame(data)
    ensures V.RootsOk(R.Handle(data, LoadHeader(data)), n) <==> EntriesOk(data, n)
  {
    hide LoadHeader, V.RootOk, V.RootHash, HashOf, EntryPoints;
    if n > 0 {
      var r, m := R.Handle(data, LoadHeader(data)), n - 1;
      RootsOnBytes(data, m);
      assert V.RootsOk(r, n) ==> V.RootsOk(r, m);
      assert EntriesOk(data, n) <==> EntriesOk(data, m) && EntryOk(data, m);
      OneMoreRoot(data, m);
    }
  }

  lemma OneMoreRoot(data: seq<byte>, m: nat)
    requires HasFrame(data)
    requires EntriesOk(data, m) <==> V.RootsOk(R.Handle(data, LoadHeader(data)), m)
    ensures V.RootsOk(R.Handle(data, LoadHeader(data)), m) ==>
      (V.RootsOk(R.Handle(data, LoadHeader(data)), m + 1) <==> EntryOk(data, m))
  {
    hide LoadHeader, EntryPoints;
    var r := R.Handle(data, LoadHeader(data));
    if V.RootsOk(r, m) {
      EntryReadsInside(data, m);
      if EntryInside(data, m) {
        RootOnBytes(data, m);
        if m > 0 {
          assert EntryOk(data, m - 1);
          RootOnBytes(data, m - 1);
        }
      }
      hide V.RootOk, V.RootHash;
      if V.RootsOk(r, m) && EntryOk(data, m) {
        forall i, j | 0 <= i < j < m + 1
          ensures V.RootHash(r, i) < V.RootHash(r, j)
        {
          assert j == m && i < m - 1 ==> V.RootHash(r, i) < V.RootHash(r, m - 1);
        }
      }
    }
  }

  lemma EntryReadsInside(data: seq<byte>, i: nat)
    requires HasFrame(data)
    ensures R.ReadEntry(R.Handle(data, LoadHeader(data)), HEADER_SIZE + i * ENTRY_SIZE).Some? <==> EntryInside(data, i)
    ensures V.RootOk(R.Handle(data, LoadHeader(data)), i) ==> EntryInside(data, i)
  {
    hide Load32, Load64, LoadHeader;
  }

  lemma RootOnBytes(data: seq<byte>, i: nat)
    requires HasFrame(data) && EntryInside(data, i)
    ensures V.RootHash(R.Handle(data, LoadHeader(data)), i) == HashOf(data, i)
    ensures V.RootOk(R.Handle(data, LoadHeader(data)), i) <==> EntryPoints(data, i)
  {
    hide Load32, Load64;
    RootEntryOnBytes(data, i);
  }

  lemma {:induction false} FirstWrong(data: seq<byte>, n: nat) returns (i: nat)
    requires HasFrame(data) && !EntriesOk(data, n)
    ensures i < n && EntriesOk(data, i) && !EntryOk(data, i)
  {
    hide EntryOk;
    if EntriesOk(data, n - 1) {
      i := n - 1;
    } else {
      i := FirstWrong(data, n - 1);
    }
  }

  /** The first wrong entry decides which status a root index gets. */
  lemma RootStatusOnBytes(data: seq<byte>)
    requires HasFrame(data)
    ensures var s, n := V.RootsOutcome(R.Handle(data, LoadHeader(data)), LoadHeader(data).rootCount), Load64(data, 24);
      && (s == V.Done(V.Accepted) <==> EntriesOk(data, n))
      && (s == V.Done(V.DuplicateKey) <==> exists i: nat :: i < n && RepeatsHash(data, i))
      && (s == V.Done(V.BadRootIndex) <==> exists i: nat :: i < n && MisplacedEntry(data, i))
      && (s == V.Outside <==> exists i: nat :: i < n && EntriesOk(data, i) && !EntryInside(data, i))
  {
    hide LoadHeader, V.RootOk, V.RootHash, HashOf, EntryPoints, V.RootsOk, V.RootsLeave, V.RepeatsFirst, EntriesOk;
    var n := Load64(data, 24);
    assert LoadHeader(data).rootCount == n by { HeaderOnBytes(data); CountOnBytes(data); }
    RootsOnBytes(data, n);
    forall i: nat | i < n && EntriesOk(data, i) && !EntryOk(data, i)
      ensures WrongRoot(data, i, n)
    {
      WrongOnBytes(data, i, n);
    }
    if !EntriesOk(data, n) {
      var i := FirstWrong(data, n);
      assert WrongRoot(data, i, n);
    }
    forall i: nat | i < n && (RepeatsHash(data, i) || MisplacedEntry(data, i) || (EntriesOk(data, i) && !EntryInside(data, i)))
      ensures EntriesOk(data, i) && !EntryOk(data, i) && WrongRoot(data, i, n)
    {
    }
  }

  lemma CountOnBytes(data: seq<byte>)
    requires HasFrame(data)
    ensures LoadHeader(data).rootCount == Load64(data, 24)
  {
    hide Load32, Load64, Load16;
  }

  /** What the first wrong entry says of the outcome. */
  ghost predicate WrongRoot(data: seq<byte>, i: nat, n: nat)
    requires HasFrame(data)
  {
    var s := V.RootsOutcome(R.Handle(data, LoadHeader(data)), n);
    && !EntriesOk(data, n)
    && (s == V.Outside <==> !EntryInside(data, i))
    && (s == V.Done(V.DuplicateKey) <==> RepeatsHash(data, i))
    && (s == V.Done(V.BadRootIndex) <==> MisplacedEntry(data, i))
    && (!EntryInside(data, i) || RepeatsHash(data, i) || MisplacedEntry(data, i))
  }

  lemma WrongOnBytes(data: seq<byte>, i: nat, n: nat)
    requires HasFrame(data) && i < n && EntriesOk(data, i) && !EntryOk(data, i)
    ensures WrongRoot(data, i, n)
  {
    hide LoadHeader, EntryPoints, HashOf, V.RootOk, V.RootHash, V.RootsOk, V.RootsLeave, V.RepeatsFirst, R.ReadEntry;
    var r := R.Handle(data, LoadHeader(data));
    RootsOnBytes(data, i);
    RootsOnBytes(data, n);
    EntryReadsInside(data, i);
    if EntryInside(data, i) {
      RootOnBytes(data, i);
    }
    if i > 0 {
      assert EntryOk(data, i - 1);
      RootOnBytes(data, i - 1);
    }
    V.WrongHere(r, i, n);
  }

  /** Behind the checksum: the pool decides unless it is in order, and then the root index. */
  lemma LaterStatus(data: seq<byte>, hash: Hash64)
    requires V.ReachesPool(data, hash) && HasFrame(data)
    ensures var s, h := V.BufferOutcome(data, hash), LoadHeader(data); var pool := V.PoolThere(data, h);
      var fine := |pool| == h.stringsSize && V.PoolOk(pool, h.stringsCount);
      && (s == V.Done(V.BadUtf8) <==> !V.Leaves(pool, h.stringsSize) && !fine && V.BreaksAtUtf8(pool, h.stringsSize))
      && (s == V.Done(V.BadString) <==> !V.Leaves(pool, h.stringsSize) && !fine && !V.BreaksAtUtf8(pool, h.stringsSize))
      && (s == V.Done(V.DuplicateKey) <==> !V.Leaves(pool, h.stringsSize) && fine && exists i: nat :: i < Load64(data, 24) && RepeatsHash(data, i))
      && (s == V.Done(V.BadRootIndex) <==> !V.Leaves(pool, h.stringsSize) && fine && exists i: nat :: i < Load64(data, 24) && MisplacedEntry(data, i))
  {
    hide LoadHeader, V.PoolThere, V.PoolOk, V.Leaves, V.BreaksAtUtf8, V.RootsOutcome, R.FooterMatches, LayoutOk, RepeatsHash, MisplacedEntry,
         EntriesOk, EntryInside, Load64;
    RootStatusOnBytes(data);
    LaterStatuses(data);
  }
}
