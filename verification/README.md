# bc-hrbl, modelled

bc-hrbl is a binary document format. A writer builds a tree by API calls, an encoder lays it out as one
buffer, a verifier checks such a buffer, a zero-copy reader looks values up in it by hash, and exporters print it
as JSON or INI. This project models those five parts and proves that they fit together: what was written is what
is read, looked up, verified and printed.

## How it is laid out

- Bytes and format: `options`, `sequences`, `bytes`, `format`, `document` (the tree), `layout` (the nodes a tree is laid out as), `encode`
  (the whole file of a document), `canonical` (the order a document has after encoding). `wire_format` describes a file once
  more, word for word and with its numbers written out, and `wire_layout` proves that every written file meets that description.
- Encoder: `buffer`, `intern_table`, `string_pool` and `pool_layout` (the string pool); `stable_sort`,
  `counting_pass`, `parallel_scatter` and `pending_sort` (the three sorts, the threaded one as a protocol of single
  steps); `encoder_session`, `collector`, `emitter`, `fixups` and `serializer` (the two passes over the writer's
  nodes, relocation and the output). The methods work on arrays and linked nodes; `layout` and `encode` specify them.
- Writer: `writer_node`, `writer_tree` (what is kept true of the linked nodes), `machine` (the API as a stack
  machine), `writer` (the class, refined to that machine call by call).
- Reader: `reader`, `reader_bytes` (its accessors, said on bytes), `lookup`, `find`, `paths`, `path_grammar` (which paths
  spell which steps), `iteration`; `readback` and `roundtrip` connect it to the layout, `legibility` says exactly when a
  file reads back, and `far_offset` has a document that does not.
- Verifier: `utf8`, `verify`; `written_file` connects it to the encoder; `file_checks` says on the bytes what is opened
  and which status each other buffer gets.
- Exporters: `child_list`, `key_order`, `arrangement` (shared), `json_string`, `json_grammar` (RFC 8259),
  `json_print`, `json_layout` (line breaks and indents), `json_roundtrip`, `json_tells`, `json_export`, `json_cut` (what is
  written before a failure), `ini`, `ini_text`, `ini_export`; `written_exports` connects them to the encoder.
- `end_to_end` goes from calls to the file and back.

## What is assumed

- The 64-bit hash is a parameter: any function of the bytes. Collisions are allowed everywhere.
- Pool offsets are narrowed to 32 bits when they are relocated (src/writer/bc_hrbl_writer_encoder.c:813 and :917) and no
  total size is checked. What the encoder writes is specified with that narrowing. Results about reading a written file ask
  `RoundTrip.Legible`: the file's size fits in 64 bits and every narrowed reference leads to its string. Any file of at most
  2^32 bytes is legible (`RoundTrip.SmallIsLegible`); beyond that a file decodes to its document if and only if it is legible
  (`Legibility.DecodesExactly`), and there are documents the encoder writes for which it is not (`FarOffset.FarIsLost`).
- The header checks take sums modulo 2^64. A buffer that passes them has its sections inside if and only if the sums do not
  wrap (`Format.SectionsFollow`, `Reader.OpenedIsValid`), and there are buffers that pass with a section outside
  (`Reader.WrappedOpens`). The verifier is specified for every buffer: when it loads beyond the buffer is stated exactly
  (`Verify.VerifyBuffer`), and being accepted does not imply that the sections are in place (`Verify.AcceptedIsValid`,
  `Verify.FoldedIsAccepted`). Results about reading an opened buffer ask that the sums do not wrap. Written files never make
  them wrap.
- Number formatting and the sort with a comparator belong to another library. Formatters are parameters that must give JSON
  numbers for integers and finite floats (and, where the text is to tell the document, different tokens for different
  numbers); of the sort only a permutation in the comparator's order is used, so with equal keys the
  exported order is open.
- Floats are their 64 bits.
- The hypothesis on lookups and paths by key is that sibling keys are distinct; without it lookup finds some member with the key.
  The writer itself accepts duplicates.
- The encoder never consults the `deduplicate_strings` option and always interns; the code is followed.

## Model

| member | source | states |
|---|---|---|
| EndToEnd.CallsReadBack | src/writer/bc_hrbl_writer_encoder.c:823-986 | whatever calls were made: if finalising gives a file of at most 2^32 bytes, the reader opens it, and decoding it from the root index gives the document those calls built, every block's members and the roots stably ordered by key hash; and the calls are exactly the ones that build that document |
| EndToEnd.CallsReadBackExactly | src/writer/bc_hrbl_writer_encoder.c:823-986 | for files of any size: whatever calls were made, the file is opened; it decodes to the document those calls built if and only if it is legible; and the verifier accepts it if and only if strings are UTF-8, root hashes distinct and root key offsets not cut off |
| EndToEnd.EveryDocumentIsWritten | src/writer/bc_hrbl_writer.c:369-391 | conversely, every document with keyless array members and 32-bit string lengths whose file fits in 32 bits is written by the calls that build it, with no failure, and decodes to itself in hash order |
| EndToEnd.FittingSerialises | src/writer/bc_hrbl_writer_encoder.c:272-307 | a document whose file fits never meets the pool's overflow errors |
| EndToEnd.FinalizeGives | src/writer/bc_hrbl_writer.c:369-391 | finalising after any calls: a construction error if one was refused, an unclosed scope if a container is open, else a pool overflow exactly when the record of some string would start at 2^32 or behind, else the file; no other error comes up |
| RoundTrip.DecodeOfEncode | src/writer/bc_hrbl_writer_encoder.c:564-986 | encode, then decode with the reader's accessors: the same scalars, array order and strings, each block a stable permutation by key hash |
| Legibility.DecodesExactly | src/writer/bc_hrbl_writer_encoder.c:811-918 | of any size: a written file decodes to its document if and only if every narrowed reference to a string leads to that string |
| RoundTrip.FittingIsLegible | src/writer/bc_hrbl_writer_encoder.c:811-818 | while relocated pool offsets fit in 32 bits, every reference leads to its string |
| RoundTrip.SmallIsLegible | src/writer/bc_hrbl_writer_encoder.c:811-818 | which a file of at most 2^32 bytes guarantees |
| FarOffset.FarIsLost | src/writer/bc_hrbl_writer_encoder.c:811-818 | a document that is written without an error, in less than 2^33 bytes, that the reader opens, that does not decode to itself and that the verifier rejects: the reference to its last key is cut off to a byte of the header |
| FarOffset.FrontLosesString | src/writer/bc_hrbl_writer_encoder.c:811-918 | any document of which the reference to some string leads to before the nodes, where header or root index do not spell that string, does not come back |
| FarOffset.CutOffPlace | src/writer/bc_hrbl_writer_encoder.c:811-818 | a reference that does not fit leads to before the pool, 2^32 bytes from its string |
| RoundTrip.HoldsIsDecoded | src/reader/bc_hrbl_reader.c:291-525 | where the accessors agree with a tree at an offset, decoding from that offset gives that tree |
| RoundTrip.FileOpens | src/reader/bc_hrbl_reader.c:17-108 | the reader's header, layout and footer checks pass on every written file whose size fits in 64 bits, and no section sum wraps |
| RoundTrip.FileHolds | src/reader/bc_hrbl_reader.c:253-289 | the root index of a legible written file files the roots in hash order with every value readable behind it |
| ReadBack.NodeReads | src/writer/bc_hrbl_writer_encoder.c:564-809 | every node emitted anywhere in the nodes section is found again by the reader, children behind their parent, block entries in hash order |
| ReadBack.TableReads | src/writer/bc_hrbl_writer_encoder.c:712-732 | a filled entry table reads as the children in stable hash order, each with its own key and value |
| Canonical.SortMembersIsPermutation | src/writer/bc_hrbl_writer_encoder.c:543-562 | putting members in encoding order loses and invents none |
| Canonical.SortMembersSorted | src/writer/bc_hrbl_writer_encoder.c:543-562 | encoding order is ascending hash order |
| Find.OrderedStays | src/writer/bc_hrbl_writer_encoder.c:543-562 | a document already in hash order throughout is its own encoding order |
| PendingSort.Sort | src/writer/bc_hrbl_writer_encoder.c:543-562 | for every count and worker count, insertion sort, serial and parallel radix sort all leave the one stable order by the full 64-bit hash |
| PendingSort.InsertionSort | src/writer/bc_hrbl_writer_encoder.c:549-559 | the in-place insertion sort leaves the stable order |
| PendingSort.RadixSort | src/writer/bc_hrbl_writer_encoder.c:384-418 | eight passes land back in the entries array, in stable order of the full hash; one pass is the serial or the parallel one |
| PendingSort.SerialPass | src/writer/bc_hrbl_writer_encoder.c:396-415 | count, prefix sums and scatter leave the entries gathered bucket by bucket, each bucket in its old order |
| PendingSort.ParallelPass | src/writer/bc_hrbl_writer_encoder.c:477-527 | the threaded pass leaves the same array as the serial one |
| PendingSort.ScatterConcurrently | src/writer/bc_hrbl_writer_encoder.c:504-521 | any interleaving of single scatter steps ends, with the destination gathered |
| PendingSort.AssignPositions | src/writer/bc_hrbl_writer_encoder.c:495-503 | each worker's write positions are where its range's share of each bucket starts |
| StableSort.PassExtendsOrder | src/writer/bc_hrbl_writer_encoder.c:396-415 | the pass invariant: a stable pass on the next byte turns the stable order of the low bytes into that of one byte more |
| StableSort.StableOrderUnique | src/writer/bc_hrbl_writer_encoder.c:534-562 | there is only one stable order, so which sort ran cannot be seen in the bytes |
| StableSort.StableOrderIsStableSorted | src/writer/bc_hrbl_writer_encoder.c:384-418 | after eight passes the order is that of the whole hash |
| CountingPass.GatherIsStable | src/writer/bc_hrbl_writer_encoder.c:409-411 | gathering by byte is a stable sort on that byte |
| CountingPass.SlotInjective | src/writer/bc_hrbl_writer_encoder.c:495-503 | no two source positions are sent to the same destination slot |
| CountingPass.SlotOnto | src/writer/bc_hrbl_writer_encoder.c:495-503 | every destination slot is some source position's |
| ParallelScatter.StepKeepsInv | src/writer/bc_hrbl_writer_encoder.c:445-455 | one step of one worker keeps the protocol's invariant: what is written is right, and every worker stands where it should |
| ParallelScatter.TargetsDisjoint | src/writer/bc_hrbl_writer_encoder.c:445-455 | two workers never aim at the same slot |
| ParallelScatter.AnyScheduleGathers | src/writer/bc_hrbl_writer_encoder.c:430-532 | for any worker count, any ranges and any schedule that finishes, every destination slot is written exactly once and the result is the serial counting pass |
| InternTable.ProbingStops | src/writer/bc_hrbl_writer_encoder.c:277-302 | below three quarters full an empty slot exists, so probing ends |
| InternTable.PutKeepsTable | src/writer/bc_hrbl_writer_encoder.c:318-330 | filing one entry in an empty slot it reaches keeps every entry reachable from its home slot |
| InternTable.RehashedIsTable | src/writer/bc_hrbl_writer_encoder.c:231-243 | growth keeps every entry reachable |
| InternTable.MissedEntry | src/writer/bc_hrbl_writer_encoder.c:277-302 | an entry that the walk to the first empty slot did not meet is not in the table |
| StringPool.Grow | src/writer/bc_hrbl_writer_encoder.c:216-247 | the new slot array files the same entries |
| StringPool.FileInTable | src/writer/bc_hrbl_writer_encoder.c:318-330 | files the next entry, doubling first when needed; the capacity stays a power of two and used * 4 < capacity * 3 after it |
| StringPool.Pool.Find | src/writer/bc_hrbl_writer_encoder.c:275-302 | finds the entry of exactly these bytes, or the empty slot where they belong; equal hashes of different strings never merge |
| StringPool.Pool.InternWithHash | src/writer/bc_hrbl_writer_encoder.c:268-335 | interning is insertion into a set of strings with first-come order; it returns the string's offset, and fails exactly on the two overflow conditions, changing nothing |
| StringPool.OutcomeTable | src/writer/bc_hrbl_writer_encoder.c:271-307 | which of the two errors an intern gives, and exactly when: more than 2^32 - 1 bytes, or a new string for a pool of more than 2^32 - 1 bytes; otherwise a new string goes to the end and a known one is where its record is |
| StringPool.Pool.File | src/writer/bc_hrbl_writer_encoder.c:310-332 | records entry and slot; the 32-bit entry index loses nothing |
| StringPool.Pool.RecordFixup | src/writer/bc_hrbl_writer_encoder.c:142-156 | appends one offset to the fixup list and changes nothing else |
| StringPool.RunIsInternAll | src/writer/bc_hrbl_writer_encoder.c:268-335 | a run of interns that succeeds leaves the plain set of strings |
| StringPool.RunFitsIn | src/writer/bc_hrbl_writer_encoder.c:272-307 | after a run that succeeds every length and every pool offset fits in 32 bits |
| PoolLayout.InternAllIsSet | src/writer/bc_hrbl_writer_encoder.c:268-335 | after any run the pool holds each requested string exactly once and nothing else |
| PoolLayout.OffsetStable | src/writer/bc_hrbl_writer_encoder.c:299-334 | growth of the pool moves no record |
| PoolLayout.OffsetsInjective | src/writer/bc_hrbl_writer_encoder.c:290-296 | two interns return the same offset exactly when the bytes are equal |
| PoolLayout.RecordAtOffset | src/writer/bc_hrbl_writer_encoder.c:303-312 | the record at a returned offset is the string's length, bytes and padding |
| PoolLayout.PoolSize | src/writer/bc_hrbl_writer_encoder.c:303-314 | every record is a multiple of four bytes and takes at least four |
| EncoderBuffer.Buffer.Append | src/writer/bc_hrbl_writer_encoder.c:80-90 | appends the bytes, whatever reallocation it took |
| EncoderBuffer.Buffer.Reserve | src/writer/bc_hrbl_writer_encoder.c:61-78 | makes room and keeps the contents |
| Collector.CollectStrings | src/writer/bc_hrbl_writer_encoder.c:344-375 | depth first, interns each non-empty key and each string value of the subtree and caches their offsets, or fails as that run of interns fails |
| Emitter.EmitScalar | src/writer/bc_hrbl_writer_encoder.c:567-639 | appends padding, kind byte and body of a scalar; a string's reference is recorded as a fixup |
| Emitter.EmitMembers | src/writer/bc_hrbl_writer_encoder.c:677-710 | emits all children in order behind what is there and gathers their entries; no earlier byte changes |
| Emitter.EmitElements | src/writer/bc_hrbl_writer_encoder.c:773-785 | emits an array's elements, each offset written into the reserved table at once |
| Emitter.FillTable | src/writer/bc_hrbl_writer_encoder.c:719-735 | writes the sorted entries over the reserved slots only, and records exactly their pool-offset fields |
| Emitter.EmitBlock | src/writer/bc_hrbl_writer_encoder.c:641-745 | a block's bytes are its layout: head, table sorted by hash, children; fixups are children's, then its own |
| Emitter.EmitArray | src/writer/bc_hrbl_writer_encoder.c:747-789 | an array's bytes are its layout |
| Emitter.EmitValue | src/writer/bc_hrbl_writer_encoder.c:791-809 | the nodes buffer grows by exactly the layout of the tree, the pool by its empty keys, the fixups by its reference positions; it fails exactly as interning the empty keys fails |
| Emitter.ContainerEmitted | src/writer/bc_hrbl_writer_encoder.c:664-738 | reserve, emit children, fill: the result is the container's layout in place |
| Layout.EmitStable | src/writer/bc_hrbl_writer_encoder.c:624-710 | strings interned later do not change what was emitted |
| Layout.EmitSize | src/writer/bc_hrbl_writer_encoder.c:564-809 | the size of the emitted bytes depends on the tree and the start only |
| Fixups.PatchEmit | src/writer/bc_hrbl_writer_encoder.c:811-821 | applying the fixups recorded for a tree to its bytes, wherever they stand, gives the tree's layout with every pool offset relocated, so they are exactly the pool-offset fields |
| Fixups.FixupsApart | src/writer/bc_hrbl_writer_encoder.c:624-630 | the recorded positions are pairwise disjoint four-byte fields inside the emitted bytes |
| Fixups.PatchedOnce | src/writer/bc_hrbl_writer_encoder.c:811-821 | each field is raised by the delta once, modulo 2^32 |
| Fixups.PatchedFrame | src/writer/bc_hrbl_writer_encoder.c:811-821 | every byte outside the fields is unchanged |
| Serializer.ApplyFixups | src/writer/bc_hrbl_writer_encoder.c:811-821 | the in-place loop is that relocation |
| Serializer.RelocateRoots | src/writer/bc_hrbl_writer_encoder.c:914-918 | root entries are raised in 32 bits, which is what the root index then holds |
| Serializer.EmitRoots | src/writer/bc_hrbl_writer_encoder.c:858-920 | nodes and root index come out as the file's sections |
| Serializer.PutSections | src/writer/bc_hrbl_writer_encoder.c:922-968 | header, root index, nodes and pool follow one another in the zeroed output |
| Serializer.Seal | src/writer/bc_hrbl_writer_encoder.c:970-980 | the checksum covers everything between header and footer and is stored in both |
| Serializer.Serialize | src/writer/bc_hrbl_writer_encoder.c:823-986 | the output is the file of the document, byte for byte, for every worker count, and holds word for word what `WireFormat` describes; it fails exactly when one of the two interning passes overflows, with that error |
| WireLayout.FileIsDescribed | src/writer/bc_hrbl_writer_encoder.c:823-986 | the file of any document, whatever its size, against a description with its numbers written out, which calls nothing of the encoder: magic, version, flags, every size, offset and count of the header, reserved zeros, checksum; the root index; every node; the pool; the footer. Counts, lengths and offsets are modulo 2^32 or 2^64, as they are stored |
| WireLayout.NodeStands | src/writer/bc_hrbl_writer_encoder.c:564-809 | at every depth: zeros up to the place just before the next multiple of one, four or eight, the kind byte there, and behind it the body; a container has the count of its children and the size of their table in bytes (24 each in a block, 8 in an array), then the table, then the children in the order they were added; a table entry has hash, key place, key length and the place of its value |
| WireLayout.SortedAtRank | src/writer/bc_hrbl_writer_encoder.c:543-562 | a member stands in its table at its rank: how many members have a lower key hash, or the same one and were added before |
| WireLayout.RanksDiffer | src/writer/bc_hrbl_writer_encoder.c:543-562 | ranks are slots of the table, no two members share one, and they follow hash and order of addition |
| WireLayout.StringsListed | src/writer/bc_hrbl_writer_encoder.c:344-375 | the pool lists the strings in the order they first come up, a key before what its value mentions, members in order; the empty key is behind all others unless it is a string value, too |
| WireLayout.PoolIsThere | src/writer/bc_hrbl_writer_encoder.c:303-314 | the pool is one record after the other: a length word, the bytes, zeros up to a multiple of four |
| Encode.DocumentKnown | src/writer/bc_hrbl_writer_encoder.c:344-375 | the pool of a written file holds each key and string value of the document exactly once |
| Encode.HeaderReads | src/writer/bc_hrbl_writer_encoder.c:935-955 | the header of a written file whose size fits in 64 bits loads back with the real section offsets, sizes and counts, and its sums do not wrap |
| Encode.FileParts | src/writer/bc_hrbl_writer_encoder.c:935-980 | where the sections of the file stand |
| Format.HeaderRoundTrip | include/internal/bc_hrbl_format_internal.h:31-47 | a stored header loads back, field by field |
| Format.FooterRoundTrip | include/internal/bc_hrbl_format_internal.h:69-75 | a stored footer loads back |
| Format.SectionsFollow | src/verify/bc_hrbl_verify.c:89-108 | in a header that passes the layout checks the sections follow one another and fill the file if and only if its sums do not wrap, and if and only if no section reaches beyond the file |
| Bytes.UnLEOfLE | include/internal/bc_hrbl_format_internal.h:199-227 | a little-endian store followed by a load of k bytes gives the value modulo 256^k |
| Bytes.LEOfUnLE | include/internal/bc_hrbl_format_internal.h:199-227 | and a load followed by a store gives the bytes |
| Bytes.LoadsBytes | include/internal/bc_hrbl_format_internal.h:199-227 | words are little-endian: four bytes with weights 1, 2^8, 2^16 and 2^24, and two such words |
| Bytes.AlignUpShift | include/internal/bc_hrbl_format_internal.h:154-162 | alignment in the nodes buffer is alignment in the file, the nodes section starting at a multiple of eight |
| Lookup.BinarySearchEntries | src/reader/bc_hrbl_reader.c:223-251 | the loop computes the search; on any hash-sorted readable table it succeeds exactly when an entry has the hash and the key, and returns such an entry |
| Lookup.LinearProbeRange | src/reader/bc_hrbl_reader.c:185-221 | probing left then right through the run of equal hashes |
| Lookup.SearchFinds | src/reader/bc_hrbl_reader.c:185-251 | search with probing agrees with a linear scan, however many hashes collide |
| Lookup.NearestFound | src/reader/bc_hrbl_reader.c:185-251 | which entry is found when a key was written more than once: of the matching ones the nearest to the first position of its hash that halving hits, to the left if there is one, else to the right |
| Reader.OpenedIsValid | src/reader/bc_hrbl_reader.c:82-108 | an opened buffer has all its sections inside if and only if its header sums do not wrap |
| FileChecks.OpensExactly | src/reader/bc_hrbl_reader.c:17-108 | on the bytes, with literal words: exactly which buffers are opened |
| Reader.WrappedOpens | src/reader/bc_hrbl_reader.c:36-57 | a buffer of 160 bytes that is opened although its header puts the string pool a megabyte behind its start |
| ReaderBytes.KindOnBytes | src/reader/bc_hrbl_reader.c:291-313 | on the bytes of any opened buffer: a place has a kind exactly if it is in the nodes section and its byte is one of the nine |
| ReaderBytes.ScalarsOnBytes | src/reader/bc_hrbl_reader.c:443-508 | numbers and booleans, and exactly when nothing is read: the word at the next multiple of eight, if it is inside |
| ReaderBytes.Int64OnBytes | src/reader/bc_hrbl_reader.c:463-471 | signed numbers are read as two's complement |
| ReaderBytes.StringOnBytes | src/reader/bc_hrbl_reader.c:510-525 | strings are read through place and length at the next multiple of four, if they are inside |
| ReaderBytes.ContainersOnBytes | src/reader/bc_hrbl_reader.c:315-424 | containers: kind byte, count, and as many items of 24 or 8 bytes inside the buffer |
| ReaderBytes.ElementOnBytes | src/reader/bc_hrbl_reader.c:426-441 | an element below the count is the word in its slot |
| ReaderBytes.MemberOnBytes | src/reader/bc_hrbl_reader.c:347-375 | a member below the count is the key and the value's place that its entry names, unless the key is not all inside |
| Reader.Iterator.Next | src/reader/bc_hrbl_reader.c:767-820 | hands out what the indexed accessors would, and stays put at the end or on a bad child |
| Iteration.RunVisitsAll | src/reader/bc_hrbl_reader.c:767-820 | over a whole run on a written container: each call hands out the next child, in order, each once, and every call after the last child nothing |
| Iteration.CallNext | src/reader/bc_hrbl_reader.c:767-820 | calling the iterator any number of times is that run |
| Find.TableFinds | src/reader/bc_hrbl_reader.c:279-289 | on a written table, lookup succeeds exactly when a member has the key and finds the value of such a member |
| Find.BlockFinds | src/reader/bc_hrbl_reader.c:377-392 | the same for a block anywhere in a written file; on any other kind lookup fails |
| Find.DistinctFound | src/reader/bc_hrbl_reader.c:377-392 | with distinct keys it is that key's own child, found by its own entry |
| Find.ArrayIndexes | src/reader/bc_hrbl_reader.c:426-441 | indexing succeeds exactly inside a written array and finds that element |
| Paths.ResolvePath | src/reader/bc_hrbl_reader.c:527-619 | resolving step by step is reading the whole path, then following its steps; what paths spell and where they lead is stated by the lemmas beside it |
| Paths.RenderedSpells | src/reader/bc_hrbl_reader.c:538-599 | a path rendered from quoted keys and bracketed decimals spells exactly those steps |
| PathGrammar.SpellsExactly | src/reader/bc_hrbl_reader.c:538-599 | exactly which paths spell which steps: pieces, each a bare key, a key in either quotes or decimals in brackets, with dots before keys but the first; no other path spells anything |
| PathGrammar.BareSpells | src/reader/bc_hrbl_reader.c:582-597 | a key spells itself bare exactly if it is not empty, holds neither dot nor opening bracket and does not start with a quote |
| Layout.PlacesDiffer | src/writer/bc_hrbl_writer_encoder.c:677-710 | no two children are emitted at the same place, so an offset tells equal subtrees apart |
| Paths.PathsResolve | src/reader/bc_hrbl_reader.c:527-619 | on a legible written file with distinct sibling keys, a path of quoted keys and bracketed decimals resolves exactly when the walk through the tree succeeds, to the offset at which the very node walked to was emitted; and that node decodes to the value walked to |
| PathGrammar.EveryPathResolves | src/reader/bc_hrbl_reader.c:527-619 | for every path at all, bare, quoted and bracketed: one that is made of pieces leads where the walk along its steps leads, or nowhere when the walk fails; any other resolves to nothing |
| Paths.StepsLead | src/reader/bc_hrbl_reader.c:527-619 | the same for steps, however they were spelled |
| Utf8.Recognise | src/verify/bc_hrbl_verify.c:14-62 | over a string of which only a part may be inside the buffer: accepts exactly when all is there and is the UTF-8 encoding (sections 3 and 4 of RFC 3629) of some string of Unicode scalar values; goes beyond what is there exactly when characters are followed by a sequence that is cut off and fine so far |
| Utf8.StopsOnce | src/verify/bc_hrbl_verify.c:22-59 | characters give way to something else at one place only |
| Utf8.AcceptedIsEncoded | src/verify/bc_hrbl_verify.c:22-59 | whatever sequence is accepted is the encoding of a scalar value |
| Utf8.EncodedIsAccepted | src/verify/bc_hrbl_verify.c:22-59 | every encoding of a scalar value is accepted, and decodes to it |
| Utf8.DecodingIsUnique | src/verify/bc_hrbl_verify.c:14-62 | the scalar values of an accepted string are unique |
| Utf8.LooseAgrees | src/export/bc_hrbl_export.c:116-152 | on accepted strings the exporter's looser decoder gives the same scalars and never fails |
| Utf8.LooseBytes | src/export/bc_hrbl_export.c:116-152 | the exporter's decoder, byte for byte: which sequences it takes, and as what number |
| Verify.VerifyStringsPool | src/verify/bc_hrbl_verify.c:113-157 | over a pool of which only a part may be inside the buffer: accepts exactly when all is inside and is the concatenation of that many records of UTF-8 strings, zero padding included; goes beyond the buffer exactly when, behind good records, one is fine so far and goes on beyond; of the rest it is bad_utf8 exactly when, behind good records, the string of one is refused by what is there of it, and else bad_string |
| Verify.ReadsOnce | src/verify/bc_hrbl_verify.c:113-157 | a pool can be read in one way only, so where reading stops does not depend on the reading |
| Verify.PoolUnique | src/verify/bc_hrbl_verify.c:113-157 | a pool is the records of one list of strings only, so the parser undoes the pool's layout |
| Verify.VerifyRootIndex | src/verify/bc_hrbl_verify.c:159-183 | accepts exactly when entries are all in the buffer, point into their sections and hashes strictly ascend; otherwise the first wrong entry decides: beyond the buffer if it is not all there, duplicate_key if it repeats the hash before it, else bad_root_index |
| Verify.VerifyBuffer | src/verify/bc_hrbl_verify.c:185-223 | for every buffer: the status of the first check that fails, accepted exactly when the reader opens it and checksum, pool and root index are in order; and a load beyond the buffer exactly when, behind checks that pass, the pool, or an accepted pool's root index, is fine as far as it is inside and goes on beyond; which check has which status is stated on the bytes by `FileChecks` |
| FileChecks.StatusOfBytes | src/verify/bc_hrbl_verify.c:64-211 | on the bytes, with literal words: too_small, bad_magic, bad_version, bad_flags, bad_file_size, bad_layout, bad_footer and bad_checksum are each given exactly when their check is the first that fails, and the pool is reached exactly when none does |
| FileChecks.LaterStatus | src/verify/bc_hrbl_verify.c:213-223 | behind the checksum: bad_utf8 and bad_string are given for a pool not in order, duplicate_key and bad_root_index for the root index behind a pool in order |
| FileChecks.RootStatusOnBytes | src/verify/bc_hrbl_verify.c:159-183 | on the bytes of the root index: accepted, duplicate_key and bad_root_index by what the first wrong entry is, and beyond the buffer exactly when it is not all there |
| FileChecks.RootEntryOnBytes | src/verify/bc_hrbl_verify.c:163-180 | the words that are compared in a root entry |
| Verify.WrappedPasses | src/verify/bc_hrbl_verify.c:185-218 | for every hash a buffer of 160 bytes that passes all checks up to the checksum, after which the source loads from a pool that would start at byte 1000128 |
| Verify.InsideStays | src/verify/bc_hrbl_verify.c:113-183 | with pool and root index inside the buffer, as they are when no header sum wraps, nothing beyond it is loaded |
| Verify.AcceptedIsValid | src/verify/bc_hrbl_verify.c:89-108 | an accepted buffer has pool and root index inside, but all its sections if and only if its sums do not wrap, that is if its nodes section is inside: being accepted does not imply sections in place |
| Verify.FoldedIsAccepted | src/verify/bc_hrbl_verify.c:89-218 | for every hash a buffer of 160 bytes that is accepted, every load inside it, though its sums wrap and its pool lies in the header |
| WrittenFile.WrittenIsAccepted | src/writer/bc_hrbl_writer_encoder.c:909-985 | a written file of any size is accepted if and only if all its strings are UTF-8, no two root keys share a hash, and the relocated pool offsets of root keys fit in 32 bits |
| WrittenFile.RootEntryAt | src/writer/bc_hrbl_writer_encoder.c:914-918 | a root entry passes the verifier exactly when its key's pool offset was not cut off: if it was, it points before the pool |
| WrittenFile.SmallFits | src/writer/bc_hrbl_writer_encoder.c:914-918 | a file of at most 2^32 bytes meets the condition on root keys |
| Machine.FailureIsFinal | src/writer/bc_hrbl_writer.c:144-146 | after one refused call nothing changes any more and every later call is refused |
| Machine.AcceptedCalls | src/writer/bc_hrbl_writer.c:50-347 | exactly which calls are accepted in which scope: a key is bytes, none up to 2^32 - 1 of them, or a null pointer without a length; inside an array nothing is set, and a container begins with a null key only, not with one of no bytes; nothing is appended elsewhere; only the innermost container is ended, as what it is |
| Machine.StepOf | src/writer/bc_hrbl_writer.c:68-347 | what each call does: an accepted value becomes the last root or member, under the bytes of its key or, with a null key, under the empty key; a container is opened empty, and ended becomes the last member with all it holds; a refused call changes nothing but the error flag |
| Machine.RunSound | src/writer/bc_hrbl_writer.c:92-106 | every run of calls keeps: only blocks and arrays are open, members are keyed exactly under root or block, lengths fit in 32 bits |
| Machine.CallsBuildExactly | src/writer/bc_hrbl_writer.c:142-347 | calls and documents determine each other: an accepted, closed run built the document whose calls they are, and every such document can be built |
| WriterTree.ChildJoins | src/writer/bc_hrbl_writer.c:82-90 | linking behind an open container keeps all sibling lists, counts, parents and the spine of open containers right, and opens one frame |
| WriterTree.RootJoins | src/writer/bc_hrbl_writer.c:70-81 | the same for a root |
| WriterTree.Finishes | src/writer/bc_hrbl_writer.c:332-347 | going back to the parent finishes the innermost frame, as the stack machine does |
| WriterTree.ClosedTreeHolds | src/writer/bc_hrbl_writer.c:68-90 | with nothing open, the linked nodes stand for exactly the machine's document: lists are acyclic and complete |
| Writer.Writer.AppendToScope | src/writer/bc_hrbl_writer.c:68-90 | the linked tree after appending is the machine with the node opened |
| Writer.Writer.AddLeaf | src/writer/bc_hrbl_writer.c:142-171 | adds a blank leaf, or fails for good, exactly as scope, key and error flag say |
| Writer.Writer.Set | src/writer/bc_hrbl_writer.c:173-234 | each set call is the machine's step; it returns whether nothing has failed |
| Writer.Writer.Append | src/writer/bc_hrbl_writer.c:236-295 | each append call is the machine's step |
| Writer.Writer.Begin | src/writer/bc_hrbl_writer.c:297-330 | each begin call is the machine's step |
| Writer.Writer.End | src/writer/bc_hrbl_writer.c:332-347 | each end call is the machine's step: only the innermost container, of its kind |
| Writer.Writer.Finalize | src/writer/bc_hrbl_writer.c:369-391 | gives the file of a closed document nothing went wrong with, and otherwise the matching error; the tree stays as it is |
| JsonExport.Exporter.WriteString | src/export/bc_hrbl_export.c:154-243 | writes the quoted, escaped string; fails exactly when some character cannot be decoded, after writing what comes before it |
| JsonExport.Exporter.ExportValue | src/export/bc_hrbl_export.c:465-519 | prints the value held at the offset, blocks in sorted or table order; fails exactly when some string cannot be decoded, and has then written what printing such an arrangement writes up to the first character that cannot; it ends |
| JsonExport.Exporter.ExportJson | src/export/bc_hrbl_export.c:530-628 | prints an arrangement of the whole document; the layout of what is printed is stated on the bytes by `JsonLayout` |
| JsonExport.ExportReads | src/export/bc_hrbl_export.c:332-628 | JSON round trip: for UTF-8 strings nothing is refused, and the text parses, by sections 2 to 7 of RFC 8259, to the arranged document, for every indent, sort and ASCII option |
| JsonLayout.DocumentLaidOut | src/export/bc_hrbl_export.c:67-93 | the text is laid out, told by a reader of its bytes that calls nothing of the printer: with an indent a line ends behind an opening bracket that is not closed at once, behind a comma, before the closing bracket and at the very end, lines start with the indent for each open container, one space stands behind a colon, no other space anywhere; without, no white space |
| JsonLayout.NewlinesIndent | src/export/bc_hrbl_export.c:67-93 | in a text so laid out every newline but the last is followed by exactly the indent times the open containers, one that is closed there not counted, and then by no space |
| JsonLayout.ItemsStartLines | src/export/bc_hrbl_export.c:361-444 | outside strings a newline is behind every comma and every bracket that opens a container that is not empty |
| JsonLayout.ClosersStartLines | src/export/bc_hrbl_export.c:405-462 | outside strings a closing bracket starts a line, or closes what was just opened |
| JsonLayout.NothingBlank | src/export/bc_hrbl_export.c:67-93 | without an indent there is no white space outside strings |
| JsonRoundTrip.LeafTable | src/export/bc_hrbl_export.c:245-300 | the bytes of every leaf: the words for null, true and false, the formatter's text of a number, ".0" behind a float that shows neither point nor exponent, null for NaN and infinities |
| JsonCut.CutIsFront | src/export/bc_hrbl_export.c:154-519 | what has been written when a string is given up is the front of a whole text: a quote there would go on with the text of some tree |
| JsonRoundTrip.DocumentReads | src/export/bc_hrbl_export.c:530-628 | the printed document is a JSON text whose value is the document's tree |
| JsonTells.TextTells | src/export/bc_hrbl_export.c:332-628 | two documents print alike if and only if they differ only in how a number below 2^63 is stored, and in null, NaN and infinities |
| JsonTells.TreeTells | src/export/bc_hrbl_export.c:332-519 | trees without such differences have different JSON values |
| JsonRoundTrip.FloatIsNumber | src/export/bc_hrbl_export.c:267-295 | a finite float with .0 appended where needed is a JSON number |
| JsonGrammar.QuotedReads | src/export/bc_hrbl_export.c:154-243 | string escaping is invertible: reading the quoted form, by section 7 of RFC 8259, gives the string's characters, ASCII-only or not |
| JsonGrammar.WideReads | src/export/bc_hrbl_export.c:222-240 | escapes above U+007F, surrogate pairs included, read as the character |
| JsonGrammar.AsciiOnlyIsAscii | src/export/bc_hrbl_export.c:222-240 | with ASCII output no byte is above 0x7F |
| JsonString.AsciiTable | src/export/bc_hrbl_export.c:160-221 | what is written for each character below U+0080, byte for byte |
| JsonString.WideTable | src/export/bc_hrbl_export.c:222-240 | from U+0080 on: the character's own UTF-8 bytes, or with ASCII output the escapes of its UTF-16 units, in capitals |
| JsonString.LooseTable | src/export/bc_hrbl_export.c:205-240 | the same for sequences that only the looser decoder takes |
| JsonString.StartedIsFront | src/export/bc_hrbl_export.c:154-243 | a string that is given up has been written like what comes before the byte that cannot be decoded, but for the closing quote |
| ChildList.SortWithCompare | src/export/bc_hrbl_export.c:373-378 | the contract used of the library's sort: a permutation in the comparator's order |
| ChildList.SortedEntries | src/export/bc_hrbl_export.c:355-378 | the sorted scratch list names the block's members, permuted, by key or left in table order |
| KeyOrder.KeyLessIsLexicographic | src/export/bc_hrbl_export.c:312-328 | the key comparator is lexicographic order of bytes |
| KeyOrder.BeforeIsStrict | src/export/bc_hrbl_export.c:312-328 | which is strict and total |
| KeyOrder.BeforeIsTransitive | src/export/bc_hrbl_export.c:312-328 | and transitive |
| IniExport.Exporter.EmitBlock | src/export/bc_hrbl_export_ini.c:310-404 | writes header, own leaves, then blocks under their dotted paths, byte for byte; fails exactly when an array holds a container |
| IniExport.Exporter.ExportIni | src/export/bc_hrbl_export_ini.c:411-476 | writes the bytes of the lines of an arrangement of the document |
| Ini.RootAttribution | src/export/bc_hrbl_export_ini.c:310-404 | reading the lines with a running section gives every leaf once under its block's dotted path if and only if no block with an empty path has leaves behind another block's header |
| Ini.LeavesArePlaced | src/export/bc_hrbl_export_ini.c:310-404 | the sections that leaves are attributed to are dotted paths: the keys from the root to the block that holds the leaf, one dot between any two, where every block has a key |
| Ini.RootBlanks | src/export/bc_hrbl_export_ini.c:355-404 | where empty lines stand: one for each block with blocks in it, and none else, the line behind it the header of a block directly in the one whose section is in force |
| Ini.MisplacedLeaf | src/export/bc_hrbl_export_ini.c:340-353 | a document for which attribution fails: an unsorted block with the empty key after a headed one |
| WrittenExports.MisplacedIsWritten | src/writer/bc_hrbl_writer_encoder.c:543-562 | that document is its own encoding order whenever the hash does not put the empty key first, and its small file can be exported |
| WrittenExports.UnsortedAttribution | src/export/bc_hrbl_export_ini.c:411-476 | without sorting the INI exporter writes the document in encoding order, and attribution is right if and only if that order places no leaf wrongly |
| Ini.SortedIsPlaced | src/export/bc_hrbl_export_ini.c:319-337 | with sorted, distinct keys attribution cannot fail |
| IniExport.ExportIsAttributed | src/export/bc_hrbl_export_ini.c:411-476 | what is exported is attributed rightly when every block has a key, or keys are sorted and distinct among siblings |
| IniText.WriteEscaped | src/export/bc_hrbl_export_ini.c:67-135 | writes the quoted, escaped string |
| IniText.EscapedUnescapes | src/export/bc_hrbl_export_ini.c:67-135 | escaping is invertible for any bytes |
| IniText.EscapeTable | src/export/bc_hrbl_export_ini.c:67-135 | which bytes are escaped, and as what |
| IniText.TokenMeans | src/export/bc_hrbl_export_ini.c:137-211 | what a value is written as, told by a reader of its own: the bytes of true and false, nothing for null and for a float that is not finite, a quoted string, otherwise the formatter's number |
| IniText.TextReads | src/export/bc_hrbl_export_ini.c:233-404 | bytes are read back as the lines that were written if and only if no key and no path holds a newline or an equals sign |
| IniExport.ExportIsTold | src/export/bc_hrbl_export_ini.c:411-476 | so what is exported for a document with such keys tells its lines |
| IniExport.ExportReads | src/export/bc_hrbl_export_ini.c:411-476 | INI export, all the way: the exported bytes, read line by line with a running section, give every leaf once, in order, under the dotted path of its block, and as its own value |
| IniText.MisreadKey | src/export/bc_hrbl_export_ini.c:298-307 | a setting whose key holds an equals sign: its line is no line of the format when read |
| WrittenExports.FileCanBeExported | src/writer/bc_hrbl_writer_encoder.c:909-985 | a written file meets what both exporters ask for, and encoding order keeps strings UTF-8, blocks named and sibling keys distinct |
| WrittenExports.OpenAndExport | src/export/bc_hrbl_export.c:530-628 | write, open, export, parse: the exported text parses to the document in encoding order, arranged as the exporter does |

## Left out

- Allocation, arenas, thread creation and file or memory-map access: they succeed. Their error returns are single branches.
- The output writer behind the exporters never fails; `write_failed` and `failed` are set by decoding and by nested arrays only.
- Verify.VerifyBuffer: what follows a load beyond the buffer is not modelled. A place in the buffer plus the length of a record is an unbounded sum; no object is large enough for it to wrap.
- Nodes below the root of arbitrary verified input: the verifier does not walk them, so nested results are for written files.
- Writer.Writer.Set: the six setters are one method with the value as argument, stored in two phases as in the source; the six appenders likewise.
- Writer.Writer.Finalize: the last_error field is the returned error.
- The 32-bit child and root counters of the writer are not wrapped; counts below 2^32 are part of what a well-formed document is, and hold in any file of at most 2^32 bytes.
- Sizes and positions inside the encoder are unbounded integers; where the source narrows them (offsets, lengths, counts, header words) the model narrows too.
- Threads are single scatter steps in any order, each step one element; the counting workers only read shared data and are run one after the other. Memory models are not part of this.
- Reader accessors over value references (`find`, `get_*`, `value_kind`) repeat the offset accessors behind null checks.
- The YAML exporter and the JSON importer are mappings over libraries that are not part of this model.
- XXH3 itself, error and status names, `finalize_to_file`, benchmarks and fuzz harnesses.
- Pending entries are copied field by field in the source; here an entry is a value.
