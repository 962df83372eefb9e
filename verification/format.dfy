/** The file header and footer. */
module Format {
  import opened Bytes

  const MAGIC := 0x4C425248
  const VERSION_MAJOR := 1
  const VERSION_MINOR := 0
  /** Strings deduplicated, keys sorted by hash, roots sorted by hash, checksum present; every other flag bit is reserved. */
  const FLAGS_REQUIRED := 0xF
  const HEADER_SIZE := 128
  const FOOTER_SIZE := 32
  const ENTRY_SIZE := 24
  const ELEMENT_SIZE := 8
  const ROOT_COUNT_MAX := (TWO_64 - 1) / ENTRY_SIZE

  datatype Header = Header(
    magic: u32, versionMajor: nat, versionMinor: nat, fileSize: u64, flags: u64,
    rootCount: u64, rootIndexOffset: u64, rootIndexSize: u64, nodesOffset: u64, nodesSize: u64,
    stringsOffset: u64, stringsSize: u64, stringsCount: u64, footerOffset: u64, checksum: u64, reserved: seq<byte>)

  datatype Footer = Footer(checksum: u64, fileSize: u64, magicEnd: u32)

  function Load16(data: seq<byte>, offset: nat): (n: nat)
    requires offset + 2 <= |data|
  {
    Load(data, offset, 2)
  }

  function LoadHeader(data: seq<byte>): (h: Header)
    requires |data| >= HEADER_SIZE
  {
    Header(Load32(data, 0), Load16(data, 4), Load16(data, 6), Load64(data, 8), Load64(data, 16),
           Load64(data, 24), Load64(data, 32), Load64(data, 40), Load64(data, 48), Load64(data, 56),
           Load64(data, 64), Load64(data, 72), Load64(data, 80), Load64(data, 88), Load64(data, 96), data[104..128])
  }

  function LoadFooter(data: seq<byte>, offset: nat): (f: Footer)
    requires offset + FOOTER_SIZE <= |data|
  {
    Footer(Load64(data, offset), Load64(data, offset + 8), Load32(data, offset + 16))
  }

  /** The words of the header after the version, in file order. */
  function HeaderWords(h: Header): (ws: seq<u64>)
    ensures |ws| == 12
  {
    [h.fileSize, h.flags, h.rootCount, h.rootIndexOffset, h.rootIndexSize, h.nodesOffset, h.nodesSize,
     h.stringsOffset, h.stringsSize, h.stringsCount, h.footerOffset, h.checksum]
  }

  function Words(ws: seq<u64>): (r: seq<byte>)
    ensures |r| == 8 * |ws|
  {
    if ws == [] then [] else Words(ws[..|ws| - 1]) + LE(ws[|ws| - 1], 8)
  }

  function HeaderBytes(h: Header): (r: seq<byte>)
    ensures |r| == 104 + |h.reserved|
  {
    (LE(h.magic, 4) + LE(h.versionMajor, 2) + LE(h.versionMinor, 2)) + Words(HeaderWords(h)) + h.reserved
  }

  function FooterBytes(f: Footer): (r: seq<byte>)
    ensures |r| == FOOTER_SIZE
  {
    LE(f.checksum, 8) + LE(f.fileSize, 8) + (LE(f.magicEnd, 4) + Zeros(12))
  }

  lemma {:induction false} WordAt(data: seq<byte>, offset: nat, ws: seq<u64>, i: nat)
    requires At(data, offset, Words(ws)) && i < |ws|
    ensures offset + 8 * i + 8 <= |data| && Load64(data, offset + 8 * i) == ws[i]
  {
    var n := |ws| - 1;
    AtPart(data, offset, [], Words(ws[..n]), LE(ws[n], 8));
    assert [] + Words(ws[..n]) + LE(ws[n], 8) == Words(ws);
    if i < n {
      WordAt(data, offset, ws[..n], i);
    } else {
      AtPart(data, offset, Words(ws[..n]), LE(ws[n], 8), []);
      assert Words(ws[..n]) + LE(ws[n], 8) + [] == Words(ws);
      AtLoad64(data, offset + 8 * n, ws[n]);
    }
  }

  /** A header that has been stored is loaded back. */
  lemma HeaderRoundTrip(data: seq<byte>, h: Header)
    requires At(data, 0, HeaderBytes(h)) && |h.reserved| == 24
    requires h.versionMajor < 0x1_0000 && h.versionMinor < 0x1_0000
    ensures |data| >= HEADER_SIZE && LoadHeader(data) == h
  {
    var front := LE(h.magic, 4) + LE(h.versionMajor, 2) + LE(h.versionMinor, 2);
    AtParts(data, 0, front, Words(HeaderWords(h)), h.reserved);
    FrontRoundTrip(data, h);
    WordsRoundTripFirst(data, h);
    WordsRoundTripLast(data, h);
  }

  lemma FrontRoundTrip(data: seq<byte>, h: Header)
    requires At(data, 0, LE(h.magic, 4) + LE(h.versionMajor, 2) + LE(h.versionMinor, 2))
    requires h.versionMajor < 0x1_0000 && h.versionMinor < 0x1_0000
    ensures |data| >= 8 && Load32(data, 0) == h.magic && Load16(data, 4) == h.versionMajor && Load16(data, 6) == h.versionMinor
  {
    hide LE, Load32;
    AtParts(data, 0, LE(h.magic, 4), LE(h.versionMajor, 2), LE(h.versionMinor, 2));
    AtLoad32(data, 0, h.magic);
    UnLEOfLE(h.versionMajor, 2);
    UnLEOfLE(h.versionMinor, 2);
    PowersOf256();
  }

  lemma WordsRoundTripFirst(data: seq<byte>, h: Header)
    requires At(data, 8, Words(HeaderWords(h)))
    ensures |data| >= 104
    ensures Load64(data, 8) == h.fileSize && Load64(data, 16) == h.flags && Load64(data, 24) == h.rootCount
    ensures Load64(data, 32) == h.rootIndexOffset && Load64(data, 40) == h.rootIndexSize && Load64(data, 48) == h.nodesOffset
  {
    hide Words, Load64, At;
    var ws := HeaderWords(h);
    WordAt(data, 8, ws, 11);
    WordAt(data, 8, ws, 0);
    WordAt(data, 8, ws, 1);
    WordAt(data, 8, ws, 2);
    WordAt(data, 8, ws, 3);
    WordAt(data, 8, ws, 4);
    WordAt(data, 8, ws, 5);
  }

  lemma WordsRoundTripLast(data: seq<byte>, h: Header)
    requires At(data, 8, Words(HeaderWords(h)))
    ensures |data| >= 104
    ensures Load64(data, 56) == h.nodesSize && Load64(data, 64) == h.stringsOffset && Load64(data, 72) == h.stringsSize
    ensures Load64(data, 80) == h.stringsCount && Load64(data, 88) == h.footerOffset && Load64(data, 96) == h.checksum
  {
    hide Words, Load64, At;
    var ws := HeaderWords(h);
    WordAt(data, 8, ws, 11);
    WordAt(data, 8, ws, 6);
    WordAt(data, 8, ws, 7);
    WordAt(data, 8, ws, 8);
    WordAt(data, 8, ws, 9);
    WordAt(data, 8, ws, 10);
    WordAt(data, 8, ws, 11);
  }

  lemma FooterRoundTrip(data: seq<byte>, offset: nat, f: Footer)
    requires At(data, offset, FooterBytes(f))
    ensures offset + FOOTER_SIZE <= |data| && LoadFooter(data, offset) == f
  {
    AtParts(data, offset, LE(f.checksum, 8), LE(f.fileSize, 8), LE(f.magicEnd, 4) + Zeros(12));
    AtPart(data, offset + 16, [], LE(f.magicEnd, 4), Zeros(12));
    assert [] + LE(f.magicEnd, 4) + Zeros(12) == LE(f.magicEnd, 4) + Zeros(12);
    AtLoad64(data, offset, f.checksum);
    AtLoad64(data, offset + 8, f.fileSize);
    AtLoad32(data, offset + 16, f.magicEnd);
  }

  // ----- the checks the reader and the verifier share -----

  /** Section layout, sums taken in 64 bits. */
  predicate LayoutOk(h: Header) {
    && h.rootIndexOffset == HEADER_SIZE
    && h.rootCount <= ROOT_COUNT_MAX
    && h.rootIndexSize == h.rootCount * ENTRY_SIZE % TWO_64
    && h.nodesOffset == (h.rootIndexOffset + h.rootIndexSize) % TWO_64
    && h.stringsOffset == (h.nodesOffset + h.nodesSize) % TWO_64
    && h.footerOffset == (h.stringsOffset + h.stringsSize) % TWO_64
    && (h.footerOffset + FOOTER_SIZE) % TWO_64 == h.fileSize
  }

  /** No section size makes the header's sums wrap. */
  predicate NoWrap(h: Header) {
    HEADER_SIZE + h.rootCount * ENTRY_SIZE + h.nodesSize + h.stringsSize + FOOTER_SIZE < TWO_64
  }

  /** The sections follow one another and fill the file. */
  predicate SectionsInPlace(h: Header, size: nat) {
    && h.nodesOffset == HEADER_SIZE + h.rootCount * ENTRY_SIZE
    && h.stringsOffset == h.nodesOffset + h.nodesSize
    && h.footerOffset == h.stringsOffset + h.stringsSize
    && h.footerOffset + FOOTER_SIZE == size
  }

  /** No section reaches beyond the file. */
  predicate SectionsInside(h: Header, size: nat) {
    && HEADER_SIZE + h.rootCount * ENTRY_SIZE <= size
    && h.nodesOffset + h.nodesSize <= size
    && h.stringsOffset + h.stringsSize <= size
  }

  /**
   * The checks take sums modulo 2^64. In a header that passes them the sections are in place exactly when no sum
   * wraps; and when one does, some section reaches beyond the file.
   */
  lemma SectionsFollow(h: Header, size: nat)
    requires LayoutOk(h) && h.fileSize == size
    ensures NoWrap(h) <==> SectionsInPlace(h, size)
    ensures NoWrap(h) <==> SectionsInside(h, size)
  {
    SmallMod(h.rootCount * ENTRY_SIZE);
    SmallMod(h.rootIndexOffset + h.rootIndexSize);
    SmallMod(h.nodesOffset + h.nodesSize);
    SmallMod(h.stringsOffset + h.stringsSize);
    SmallMod(h.footerOffset + FOOTER_SIZE);
  }

  lemma SmallMod(n: nat)
    ensures n < TWO_64 ==> n % TWO_64 == n
  {
  }
}
