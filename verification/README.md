# Verified model of the Xbox disc, capture, trace and signature tools

The models follow the source file by file and prove what its pieces promise each other.

* **Xbox disc images** (`src/xiso`). `Bytes`, `XisoLayout`, `XisoTree`, `XisoImage`, `XisoTable`,
  `XisoMedia` and `XisoDisc` say what an image of a directory tree is: where records, tables and
  files go, and which bytes they have. `XisoSort` has the orders the entries may be in. `XisoBuild`
  (tree, offsets, sectors) and `XisoWriter` (file data, tables, header, padding) are the writer's
  passes over mutable nodes, buffers and an output stream, proved against that. `XisoReader` is the
  reader with its explicit stack and its copy loop. `XisoSource` says what a source holds whatever
  its order, `XisoRoundTrip` puts writer and reader together, also for images embedded in a larger
  file, and `XisoSearch` shows that a written table is a balanced search tree. `XisoPaths` tells the
  paths and the order of a listing by names alone, `XisoPacking` how tightly records are packed, and
  `XisoFormat` which byte of an image means what.
* **NV2A captures** (`tools/nv2a_capture.py`). `VertexProgram`: the shader interpreter and its
  static check; `VertexEncoding` and `VertexOperations`: how instructions are encoded, what each
  does, and what whole programs compute. `Pusher`, `PusherProofs`, `PusherRelocation`: the
  push-buffer decoder, what encoded streams replay to, and why relocated captures compare equal.
  `PusherEquality`: which captures that compare equal are relocated. `PusherLaws`: what every single
  word does and reports. `PusherCaptures`: which captures are accepted. `Pgraph`, `PgraphProofs`:
  the method state machine and its invariants over every run. `PgraphWrites`: what every cell those
  methods write holds after a run. `PgraphReports`: what is reported when. `PixelMemory`: lazy
  regions and the page index; `PixelMemoryLaws`: which observation each byte comes from. `Swizzle`:
  samplers, texel addressing and unpacking; `TextureLaws`: textures by their color format.
  `PixelSurface`: the extent of the surfaces, the pixels triangles touch, and which of their
  accesses and of a clear's raise. `PixelDraw`: when a draw can be executed, and its triangles;
  `PixelShapes`: the shapes primitives are cut into; `PixelLaws`: conditions by register number, and
  coverage. `PixelReplay`: scheduling of draws behind memory records, and the account of every draw;
  `PixelReplayLaws`: replays told from the records alone.
* **Trace files** (`tools/traceevt.py`). `TraceAssembly`: continuation groups, resynchronisation and
  the per-thread sequence check. `TraceLaws`: which faults they report.
* **Signatures** (`tools/oovpa`). `Signatures`: choosing byte pairs and scanning for them;
  `SignatureLaws`: why a body determines its signature. `MaskedMatching`: runs, exact matches and
  scores around relocations.

`Wrappers` holds the option type and `Numbers` the small functions the others share.

Where a class or a loop of the source changes state, the model has a class or a loop whose contract
gives the new state as a function of the old one; what the source promises is then proved about that
function. `PixelReplay` keeps the list of requests its backend received so that their order can be
stated. Laws about such a function are stated without it, in terms of bytes, bits, register numbers and
records, so that they say what the function means.

Preconditions are those of the formats: file names of 1 to 255 bytes, directory tables of at most
0x40000 bytes (child pointers are 16-bit dword indices), and sector numbers that fit 32 bits. For a
relocation, moved addresses and jump targets are nonzero before and after the move, the distance is
a multiple of 4, and a 29-bit jump stays within its 29 bits.

Where the code and its comments differ, the model follows the code:

* `walk` is described as in-order (xiso.cpp:201) but visits a record before its children
  (xiso.cpp:222-237); the listing is in prefix order.
* `assign_sectors` speaks of prefix order (xiso.cpp:516) but gives the children sectors in index order
  (xiso.cpp:522-543).

Properties that hold only in part, with the exact condition and an input that fails:

* The media-enable patch misses occurrences that cross a 2 MiB chunk: `XisoMedia.PatchComplete`;
  `XisoMedia.PatchMisses` has a file in which it does.
* A file of 4 GiB or more is cut by the 32-bit cast of its size: `XisoReader.FileExact`,
  `XisoTree.FillExact`; `XisoReader.FileLost` and `XisoTree.FillLoses` have one that becomes empty.
* An address equal to its base has the offset that stands for "no address", and so moving can change
  what an address compares equal to: `PusherRelocation.OffsetForgets`,
  `PusherRelocation.MovedAddressCompares`; `PusherRelocation.BaseLooksLikeNothing` and
  `PusherRelocation.ZeroMovesBadly` have such addresses.
* The position of a vertex program starts as attribute 0, reported or not. Fetching only the reported
  attributes is enough if and only if the program writes every component in which an unreported
  attribute 0 is not the default: `VertexProgram.AssembledInputsExact` for programs that read no such
  component before writing it, `VertexProgram.AssembledInputsExactUnread` for those that read nothing
  of the position; `VertexProgram.PositionLeftToInput` has a program for which it is not.
* A depth access outside its region raises, and the replay ends with a draw that is neither executed
  nor counted, or a clear that is not. The depth pitch is checked nowhere; no draw and no clear raises
  when a row of depth values fits it, and triangles and whole-surface clears do exactly when it does
  not: `PixelSurface.TrianglesFitExactly`, `PixelSurface.WholeClearRaisesExactly`,
  `PixelDraw.RaisesExactly`, `PixelReplay.WideRuns`; `PixelDraw.NarrowRaises`,
  `PixelDraw.NarrowClearRaises` and `PixelReplay.NarrowUncounted` have a draw and a clear that do.
* Captures that compare equal are relocations of each other only where no address is mistaken for
  another: `PusherEquality.RelocatedExactly`.
* A read of no bytes from captured memory finds nothing: `PixelMemory.CapturedPixelMemory.ReadObserved`.

`dafny verify dfyconfig.toml` checks the whole project.

## Model

| member | source | states |
|---|---|---|
| Bytes.ReadBack16 | src/xiso/xdfs.h:68-85 | reading a 16-bit field back from wherever its little-endian encoding sits gives the value |
| Bytes.ReadBack32 | src/xiso/xdfs.h:73-93 | the same for 32-bit fields |
| Bytes.WrLe16 | src/xiso/xdfs.h:81-85 | the in-place store puts the encoding at the offset and leaves every other byte of the buffer alone |
| Bytes.WrLe32 | src/xiso/xdfs.h:87-93 | the same for 32-bit fields |
| XisoLayout.PrefixTotal | src/xiso/xiso.cpp:474-494 | prefix order of the implicit balanced tree orders any two distinct records |
| XisoLayout.RecordsAscend | src/xiso/xiso.cpp:474-494 | for every name list, a record that comes first in prefix order ends before the other begins |
| XisoLayout.RecordsDisjoint | src/xiso/xiso.cpp:474-494 | two records of a directory share no byte |
| XisoLayout.RecordInTable | src/xiso/xiso.cpp:465-500 | every record is dword aligned, inside the table and never straddles a 2048-byte sector |
| XisoLayout.RootOffset | src/xiso/xiso.cpp:474-490 | the root of the tree sits at offset 0 of a non-empty table |
| XisoLayout.OtherOffset | src/xiso/xiso.cpp:474-490 | no other record sits at offset 0, so 0 can mean "no child" |
| XisoLayout.PointerValid | src/xiso/xiso.cpp:652-661 | in a table of at most 0x40000 bytes every child pointer fits 16 bits, leads back to its record and differs from both no-child sentinels |
| XisoLayout.TableSectorsPositive | src/xiso/xiso.cpp:465-500 | a table has at least one sector, an empty one exactly one |
| XisoLayout.TableSectorsBound | src/xiso/xiso.cpp:465-500 | a table needs at most (sum of record lengths)/1776 + 1 sectors |
| XisoPacking.RecordLengthLeast | src/xiso/xiso.cpp:454-460 | a record takes the least multiple of 4 that holds its 14 bytes of prefix and its name |
| XisoPacking.MidHalves | src/xiso/xiso.cpp:474-494 | the root of a range has as many records on its left as on its right, or one fewer |
| XisoPacking.RecordsPacked | src/xiso/xiso.cpp:465-494 | the next record in prefix order starts exactly where the one before ends, unless it would leave that sector, and then exactly at the next |
| XisoPacking.TableEnds | src/xiso/xiso.cpp:495-500 | the table ends with the sector its last record ends in |
| XisoTree.CiTrichotomy | src/xiso/xiso.cpp:408-415 | of two names exactly one is less, or they are equal ignoring case |
| XisoTree.CiTransitive | src/xiso/xiso.cpp:408-415 | the case-insensitive order is transitive |
| XisoTree.CiCongruent | src/xiso/xiso.cpp:408-415 | names equal ignoring case compare alike against every other name |
| XisoTree.ExtentsTile | src/xiso/xiso.cpp:504-553 | over any tree, the extents of all tables and files follow each other from the start sector to the final next sector with no gap and no overlap |
| XisoTree.TilesDisjoint | src/xiso/xiso.cpp:504-553 | tiling extents are pairwise disjoint and inside the tiled range |
| XisoTree.FillExact | src/xiso/xiso.cpp:439-439 | a file keeps its content exactly when its size survives the 32-bit cast of the scan |
| XisoTree.FillLoses | src/xiso/xiso.cpp:439-439 | a file of 4 GiB is kept as an empty one |
| XisoImage.ApplyKeeps | src/xiso/xiso.cpp:756-773 | of writes that never disagree, each can be read back from the final image |
| XisoImage.OrderIrrelevant | src/xiso/xiso.cpp:758-760 | two write lists with the same members, none disagreeing, make the same image |
| XisoTable.StoresHold | src/xiso/xiso.cpp:641-671 | stores into disjoint slots made in prefix order all survive |
| XisoTable.TableBytesHold | src/xiso/xiso.cpp:630-671 | the finished table holds every child's record, each pointing at the roots of its two subtrees |
| XisoTable.ParseBack | src/xiso/xiso.cpp:72-105 | parsing a record wherever it sits returns the name, sector, size, kind and pointers it was written with |
| XisoFormat.RecordFormat | src/xiso/xdfs.h:35-66 | the place of every field of a record: left pointer at 0, right at 2, sector at 4, size at 8, attributes at 12, name length at 13, name from 14 on, all lowest byte first |
| XisoFormat.KidRecordFormat | src/xiso/xiso.cpp:642-671 | a child's record holds its own sector and size, and as pointers the offsets in dwords of the middle records of the halves before and behind it, 0xFFFF for an empty half |
| XisoFormat.TablePadded | src/xiso/xiso.cpp:634-640 | every byte of a table outside its records is 0xFF |
| XisoFormat.ParsesExactly | src/xiso/xiso.cpp:72-106 | which records can be read, and which bytes their fields and pointers are |
| XisoFormat.CompareExactly | src/xiso/xiso.cpp:408-415 | one name comes before another exactly when it is a proper beginning of it or smaller at the first difference, small letters counted as capitals |
| XisoMedia.PatchBuffer | src/xiso/xiso.cpp:588-601 | the in-place scan of one chunk replaces the last byte of exactly the occurrences found in that chunk |
| XisoMedia.PatchedByte | src/xiso/xiso.cpp:580-606 | a byte of the file is changed exactly when an occurrence inside one 2 MiB chunk ends there |
| XisoMedia.PatchComplete | src/xiso/xiso.cpp:580-606 | the chunked patch equals a patch of the whole file if and only if no occurrence crosses a chunk boundary |
| XisoMedia.PatchMisses | src/xiso/xiso.cpp:580-606 | a file whose only occurrence crosses the first chunk boundary stays unpatched, while a patch of the whole file would change it |
| XisoMedia.ChunkPatched | src/xiso/xiso.cpp:580-606 | what is written for the n-th chunk is that chunk, patched on its own |
| XisoFormat.PatchFormat | src/xiso/xiso.cpp:588-601 | in a chunk of 2 MiB exactly the byte 0x7D behind E8 CA FD FF FF 85 C0 becomes 0xEB, and every other byte stays |
| XisoDisc.PassesCover | src/xiso/xiso.cpp:556-683 | the file pass and the table pass together make exactly the writes of the tree |
| XisoDisc.TreeInside | src/xiso/xiso.cpp:504-683 | every write below a node stays inside the sectors allocated to that node |
| XisoDisc.TreeAgree | src/xiso/xiso.cpp:504-683 | two writes of one tree that cover a common byte are the same write |
| XisoDisc.BodyConsistent | src/xiso/xiso.cpp:758-760 | header, file and table writes never disagree about a byte |
| XisoDisc.WriteOrderIrrelevant | src/xiso/xiso.cpp:758-760 | making the image's writes in any other order, with repetitions, gives the same image |
| XisoDisc.WritesMakeHolds | src/xiso/xiso.cpp:556-683 | an image from which each write can be read back holds every table and every file of the tree |
| XisoDisc.HoldsAfter | src/xiso/xiso.cpp:762-772 | what an image holds depends only on the bytes from its first sector on |
| XisoDisc.DiscHolds | src/xiso/xiso.cpp:725-778 | the finished image holds the whole tree and the volume descriptor and is a multiple of 64 KiB long |
| XisoFormat.FileFormat | src/xiso/xiso.cpp:565-626 | a file is written from the start of its sector: its bytes, then 0xFF up to the next multiple of 2048 |
| XisoFormat.ContentFormat | src/xiso/xiso.cpp:565-611 | its bytes are those that were read, cut or filled with 0xFF to the scanned size, patched exactly for a name that ends in .xbe or .XBE while patching is on |
| XisoFormat.SectorsLeast | src/xiso/xiso.cpp:530-537 | a file has the least number of sectors that hold it, and one when it is empty |
| XisoFormat.KidSectorsFollow | src/xiso/xiso.cpp:504-546 | the sectors of a directory: its table first, then child after child in index order, each behind everything of the one before |
| XisoFormat.VolumeLength | src/xiso/xiso.cpp:762-772 | an image is the least multiple of 64 KiB that holds what is written, filled with 0xFF |
| XisoFormat.VolumeFormat | src/xiso/xiso.cpp:686-704 | the volume descriptor at 0x10000: signature, sector 0x108, size of the root table, zeros, and the signature again in the last 20 bytes of its sector |
| XisoFormat.StubFormat | src/xiso/xiso.cpp:706-722 | the two stub sectors at 0x8000 byte by byte |
| XisoSort.SortKidsKeeps | src/xiso/xiso.cpp:445-451 | the stable sort of a directory keeps each child, with its own subtree sorted, exactly once |
| XisoSort.SortTreeSorted | src/xiso/xiso.cpp:418-451 | the stably sorted tree has every directory sorted case-insensitively |
| XisoSort.SortTreeArranges | src/xiso/xiso.cpp:445-451 | the stable order is one of the sorted orders of the source's entries |
| XisoSort.SortedLengths | src/xiso/xiso.cpp:445-451 | two sorted orders of the same entries have names of the same lengths at the same places |
| XisoSort.SizesArranged | src/xiso/xiso.cpp:445-553 | every sorted order a sort may leave takes the same tables and sectors as the stable one |
| XisoBuild.BuildTree | src/xiso/xiso.cpp:418-451 | the scan builds nodes mirroring the source tree with scan-time sizes, every directory in some sorted order; names equal ignoring case may come in any order |
| XisoBuild.BuildNode.AssignOffsets | src/xiso/xiso.cpp:474-494 | the recursive placement sets each record's offset to its place in the prefix-order layout and returns the advanced cursor |
| XisoBuild.BuildNode.CalcDirSize | src/xiso/xiso.cpp:465-500 | sets the offsets of all children and returns the table size, a whole number of sectors |
| XisoBuild.BuildNode.AssignSectors | src/xiso/xiso.cpp:504-553 | lays out a directory and everything below it from the given sector and returns the first free one |
| XisoBuild.BuildNode.AssignKids | src/xiso/xiso.cpp:514-546 | the children of an index range get consecutive sectors in index order |
| XisoBuild.BuildNode.AssignKid | src/xiso/xiso.cpp:522-537 | one child gets its sectors: a subtree, or the file's sectors but at least one |
| XisoWriter.ReadChunk | src/xiso/xiso.cpp:582-586 | a short read leaves the missing part of the chunk filled with 0xFF |
| XisoWriter.WriteFile | src/xiso/xiso.cpp:569-620 | the chunked copy writes exactly the file's extent: content cut or filled to its size, patched if asked, padded to the sector |
| XisoWriter.WriteFiles | src/xiso/xiso.cpp:556-628 | all file writes below a directory, each at its own extent |
| XisoWriter.StoreRecord | src/xiso/xiso.cpp:648-667 | one record stored into the table buffer in place; nothing else changes |
| XisoWriter.WriteNode | src/xiso/xiso.cpp:641-671 | the records of an index range stored with pointers to the two halves |
| XisoWriter.WriteDirtable | src/xiso/xiso.cpp:630-683 | a directory's table and all tables below it written at their sectors |
| XisoWriter.WriteHeader | src/xiso/xiso.cpp:686-703 | the 2048-byte volume descriptor with the root table's sector and size at 0x10000 |
| XisoWriter.WriteStub | src/xiso/xiso.cpp:706-722 | the two ISO 9660 stub sectors at 0x8000 |
| XisoWriter.WritePadding | src/xiso/xiso.cpp:762-770 | pads the image to a multiple of 64 KiB |
| XisoWriter.Create | src/xiso/xiso.cpp:725-778 | from any source directory within the format's limits, the image written is the specified one for some sorted order of its entries |
| XisoReader.Open | src/xiso/xiso.cpp:110-166 | probes the partition offsets in order and opens the first that carries the magic with the sector and size behind it |
| XisoReader.CreatedOpens | src/xiso/xiso.cpp:110-166 | a created image opens at offset 0 with the right root table |
| XisoReader.EmbeddedOpens | src/xiso/xiso.cpp:120-153 | a created image embedded at any of the four probed offsets opens there when no earlier probed offset carries the magic |
| XisoFormat.SignatureProbed | src/xiso/xiso.cpp:110-131 | a partition is recognised by the 20 bytes of the signature 0x10000 behind its start |
| XisoFormat.OpensExactly | src/xiso/xiso.cpp:110-166 | a file opens if and only if a probed offset has the signature and the root fields are inside the file; it opens at the first such offset with the sector and size stored behind the signature |
| XisoFormat.TablesRefused | src/xiso/xiso.cpp:52-69 | a table of more than 16 MiB is not read, and one that the image cuts short reads as nothing |
| XisoReader.DirtableReads | src/xiso/xiso.cpp:52-68 | a table that lies in the partition is read back byte for byte |
| XisoReader.RecordReads | src/xiso/xiso.cpp:72-106 | the record in the middle of an index range reads back as that child with pointers to the two halves |
| XisoReader.VisitsOnce | src/xiso/xiso.cpp:201-238 | the tree-order listing is a permutation of the children's own order: every entry exactly once |
| XisoReader.VisitRecord | src/xiso/xiso.cpp:207-223 | visiting one record reports its entry and, for a directory, everything below it |
| XisoReader.Walk | src/xiso/xiso.cpp:175-239 | on an image holding a tree the explicit-stack walk ends and visits exactly that tree in tree order |
| XisoPaths.ListingNested | src/xiso/xiso.cpp:207-223 | the path of every entry of a listing is that of the directory it is in, empty for the root, followed by 0x5C and its own name |
| XisoPaths.VisitedInTableOrder | src/xiso/xiso.cpp:222-237 | the entries of a directory are visited in the order of their records in its table, each with everything below it before the next |
| XisoPaths.KidVisitsStart | src/xiso/xiso.cpp:218-223 | an entry is visited before everything below it |
| XisoReader.ExtractFile | src/xiso/xiso.cpp:361-376 | the chunked copy returns the file's bytes as far as the image has them |
| XisoReader.Extract | src/xiso/xiso.cpp:319-386 | extraction returns every file of the image with its path and bytes, in walk order |
| XisoReader.ExtractedFiles | src/xiso/xiso.cpp:319-386 | on a created image the extracted files are the source's files |
| XisoReader.FileExact | src/xiso/xiso.cpp:434-441 | with the patch off, a file's bytes come back unchanged if its size fits 32 bits, and only then |
| XisoReader.FileLost | src/xiso/xiso.cpp:434-441 | a file of 4 GiB comes back empty |
| XisoSource.ArrangingKeeps | src/xiso/xiso.cpp:418-451 | a tree whose directories have their entries in any other order holds every entry and every file's bytes of the source, exactly once |
| XisoSource.SortingKeeps | src/xiso/xiso.cpp:418-451 | the sorted tree holds every entry and every file's bytes of the unsorted one, at every level, exactly once |
| XisoSource.ExactFacts | src/xiso/xiso.cpp:434-441 | without patching and with sizes that fit, what the image keeps of a tree is the tree's own sizes and bytes |
| XisoSource.ShownIsAll | src/xiso/xiso.cpp:175-382 | walking and extracting a range of children shows everything of each child once and nothing else |
| XisoPaths.FactsNamedTo | src/xiso/xiso.cpp:207-223 | what the source holds, with paths built on the way down, is what it holds with the names from the root down as paths |
| XisoPaths.PlainFactsNamedTo | src/xiso/xiso.cpp:207-223 | the same with the files' own bytes |
| XisoSource.SourceShown | src/xiso/xiso.cpp:175-451 | listing and extracting the laid-out tree shows exactly what the source holds, in whatever order its directories have their entries |
| XisoRoundTrip.CreatedHolds | src/xiso/xiso.cpp:725-778 | a created image opens, and what it opens as holds the sorted source tree |
| XisoRoundTrip.ReadBack | src/xiso/xiso.cpp:110-386 | opening, listing and extracting an image file that embeds, at any of the four probed offsets, an image of the source with its entries in any order show the source exactly: every entry once with depth, kind, size and as its path the names from the root down to it, each behind a backslash, every file once with its bytes; in the listing every entry comes below its directory, whose path begins its own |
| XisoRoundTrip.RoundTrip | src/xiso/xiso.cpp:319-778 | create, open, list, extract, whatever order the sort leaves among names equal ignoring case: the listing has each entry of the unsorted source exactly once with depth, kind, size and as its path the names from the root down to it in that order, each behind a backslash, and the extraction has every file's bytes under that path, unchanged when the patch is off and sizes fit |
| XisoSearch.LevelsLog | src/xiso/xiso.cpp:445-449 | a balanced tree over n records has floor(log2 n) + 1 levels |
| XisoSearch.DescentFinds | src/xiso/xiso.cpp:642-671 | descent by case-insensitive comparison reaches every name's record within that many records |
| XisoSearch.DescentSound | src/xiso/xiso.cpp:642-671 | descent only ever returns a record whose name equals the key ignoring case |
| XisoSearch.DistinctStrictlySorted | src/xiso/xiso.cpp:445-451 | the scan's sort puts names that differ by more than case in strict order |
| XisoSearch.PointersInOrder | src/xiso/xiso.cpp:642-671 | following left pointer, record, right pointer gives the names in sorted order |
| XisoSearch.SearchTree | src/xiso/xiso.cpp:630-671 | the written table is a search tree of logarithmic depth for exactly the directory's names |
| XisoRoundTrip.CreatedSearchTree | src/xiso/xiso.cpp:725-778 | on the image of any sorted tree, the table read for any non-empty directory whose names differ by more than case is a search tree of logarithmic depth for exactly those names |
| VertexProgram.VertexProgramAttributes | tools/nv2a_capture.py:724-754 | the loop returns the attributes of the used operands up to the final instruction, or nothing when something on the way is unsupported |
| VertexEncoding.DecodeEncode | tools/nv2a_capture.py:83-119 | any instruction written out field by field into its four words decodes to exactly those fields: operations, constant, attribute, the three operands with register, negation and swizzle, masks, output and flags |
| VertexOperations.SupportedExactly | tools/nv2a_capture.py:729-750 | exactly which instructions are supported, by their fields |
| VertexOperations.AttributesExactly | tools/nv2a_capture.py:724-754 | a complete program is accepted with exactly the attributes its used operands read |
| VertexOperations.OperandTaken | tools/nv2a_capture.py:820-837 | the value of an operand: register, attribute or constant, moved by the address register if asked, through its swizzle and negation |
| VertexOperations.MacValue | tools/nv2a_capture.py:869-887 | what each multiply-accumulate operation computes: copy, product, sum, product and sum, and the dot products of three and of four components |
| VertexOperations.IluValue | tools/nv2a_capture.py:904-918 | what each scalar operation computes: copy, reciprocal, clamped reciprocal |
| VertexOperations.ResultWrites | tools/nv2a_capture.py:839-929 | a result goes to the components its masks name of its register and of its output, and nowhere else |
| VertexOperations.StepDoes | tools/nv2a_capture.py:857-931 | what any supported instruction does to any machine, told from its fields |
| VertexOperations.ProgramTraces | tools/nv2a_capture.py:805-932 | every complete program is accepted and its run is the trace of its instructions from the initial registers on |
| VertexOperations.TransformsPosition | tools/nv2a_capture.py:805-932 | the four-instruction transform is accepted, needs only its attribute and ends with the matrix-vector product as the position, last column included, for every input and matrix |
| VertexProgram.ExecuteVertexProgram | tools/nv2a_capture.py:805-932 | the interpreter loop computes the run of the program |
| VertexProgram.SupportedNeverStuck | tools/nv2a_capture.py:820-932 | a supported instruction always executes, whatever the machine, inputs and constants hold |
| VertexProgram.AcceptedRuns | tools/nv2a_capture.py:724-932 | a program the check accepts always reaches its final instruction |
| VertexProgram.UsedOperandAgrees | tools/nv2a_capture.py:709-754 | a used operand is the same in two runs that agree on the reported attributes |
| VertexProgram.UnusedIgnored | tools/nv2a_capture.py:709-722 | an unused operand, though read, does not influence what an instruction does |
| VertexProgram.OnlyReportedAttributesMatter | tools/nv2a_capture.py:724-932 | non-interference: two runs whose inputs agree on the reported attributes and attribute 0 end with equal position, colours and texture coordinates |
| VertexProgram.AssembledInputsSuffice | tools/nv2a_capture.py:774-802 | fetching only the reported attributes gives the same result as fetching all sixteen when attribute 0 is reported or is the default |
| VertexProgram.PositionLeftToInput | tools/nv2a_capture.py:774-809 | the accepted program that only ends uses no attribute, yet its position is attribute 0; with only the reported attributes fetched it is the default instead |
| VertexProgram.ExecuteCarries | tools/nv2a_capture.py:868-928 | executing one instruction on machines with two positions makes them equal in exactly the components it writes, through register 12 or output 0 and either unit, and keeps every other component and everything else as it was |
| VertexProgram.RunCarries | tools/nv2a_capture.py:805-932 | two whole runs that differ in components of the position none of which is read before it is written: the results differ in exactly those never written |
| VertexProgram.AssembledInputsExact | tools/nv2a_capture.py:774-932 | for a program that reads no missing component of attribute 0 from the position before writing it, fetching only the reported attributes changes exactly the missing components it never writes, so nothing if and only if it writes them all |
| VertexProgram.AssembledInputsExactUnread | tools/nv2a_capture.py:774-932 | for an accepted program that never reads the position and does not report attribute 0, the results are equal if and only if attribute 0 is the default in every component no instruction writes |
| Pusher.PusherReplay.Begin | tools/nv2a_capture.py:1797-1804 | a run record replaces the registers and activates the pusher; decoded methods and errors stay |
| Pusher.PusherReplay.Push | tools/nv2a_capture.py:1806-1858 | one fetched word changes the state as the specified step does, errors included |
| PusherLaws.FetchExactly | tools/nv2a_capture.py:1810-1821 | every fetch keeps the latest frame, reports a frame that goes back with both frames, and a wrong address with the fetched and the expected one |
| PusherLaws.DataExactly | tools/nv2a_capture.py:1822-1826 | a data word becomes a call of the method and subchannel in the state word and reports nothing more |
| PusherLaws.DataCounts | tools/nv2a_capture.py:1827-1832 | it takes one from the counter and leaves all bits but counter and method alone |
| PusherLaws.DataMethod | tools/nv2a_capture.py:1827-1831 | the method goes on by one dword unless bit 0 of the state is set |
| PusherLaws.OldJumpExactly | tools/nv2a_capture.py:1835-1836 | a word that starts with 001 moves the read pointer to its lower 29 bits |
| PusherLaws.JumpExactly | tools/nv2a_capture.py:1837-1838 | a word that ends with 01 moves the read pointer to the word without these bits |
| PusherLaws.CallExactly | tools/nv2a_capture.py:1839-1844 | a word that ends with 10 calls, and remembers the address behind it, unless a call is open, which is reported |
| PusherLaws.ReturnExactly | tools/nv2a_capture.py:1845-1850 | 0x20000 resumes at the remembered address, unless no call is open, which is reported |
| PusherLaws.HeaderExactly | tools/nv2a_capture.py:1851-1856 | a packet header loads counter, subchannel, method and mode and keeps the top three bits |
| PusherLaws.ReservedExactly | tools/nv2a_capture.py:1857-1858 | exactly the words that are none of these are reported as reserved and skipped |
| PusherProofs.PacketReplays | tools/nv2a_capture.py:1819-1856 | a header word and its data, in frames that never go back, replay to one call per data word, the method advancing by 4 modulo 0x2000 when incrementing |
| PusherProofs.JumpReplays | tools/nv2a_capture.py:1835-1838 | a jump moves the read pointer and emits nothing |
| PusherProofs.CallReplays | tools/nv2a_capture.py:1839-1850 | a call, its body and the matching return emit the body's calls and resume at the word behind the call |
| PusherProofs.EncodedStreamReplays | tools/nv2a_capture.py:1797-1858 | any encoded stream of packets, jumps and matched calls, its words in any frames that never go back, replays to exactly its method calls in the frames of their data words, reports nothing and ends idle |
| PusherRelocation.ComparisonEvents | tools/nv2a_capture.py:2406-2545 | the comparison loop produces the signature list, reading each word before the pusher steps over it |
| PusherRelocation.ControlMoves | tools/nv2a_capture.py:1836-1858 | a moved control word takes similar pusher states to similar states |
| PusherRelocation.ControlSignature | tools/nv2a_capture.py:2391-2403 | a control word and its moved image have the same normalized word |
| PusherRelocation.PushMoves | tools/nv2a_capture.py:1806-1858 | a moved fetch keeps two pusher states similar: equal methods, state word and packet errors, equally many address errors |
| PusherRelocation.RelocationSimulates | tools/nv2a_capture.py:2406-2545 | simulation: at every record of a relocated capture the replays agree up to the run's distance and the signatures so far are equal |
| PusherRelocation.RelocatedCapturesCompareEqual | tools/nv2a_capture.py:2406-2545 | a relocated capture is accepted exactly when the original is, and compares equal to it |
| PusherCaptures.AcceptedExactly | tools/nv2a_capture.py:1976-1989 | a capture is accepted if and only if no record of it adds an error and the calls decoded from its words are the recorded ones |
| PusherCaptures.WrongAddressRejected | tools/nv2a_capture.py:1816-1989 | a single word from another address than the read pointer makes a capture unacceptable, whatever comes later |
| PusherCaptures.EncodedCaptureAccepted | tools/nv2a_capture.py:1786-1989 | a capture of any encoded stream, its words in any frames that never go back and among any other records, is accepted if and only if the calls it recorded are exactly those of the stream |
| PusherEquality.NormalizedKind | tools/nv2a_capture.py:2391-2403 | the normalized word is a jump, call or 29-bit jump exactly when the word is one, and is the word itself otherwise |
| PusherEquality.EqualInStep | tools/nv2a_capture.py:2406-2545 | two captures that compare equal are in the same mode and the same packet state at every record, whatever their addresses |
| PusherEquality.EqualControl | tools/nv2a_capture.py:2391-2403 | control words with equal normalized words and targets that are not zero are moved images of each other |
| PusherEquality.RelocatedExactly | tools/nv2a_capture.py:2406-2545 | two captures are relocations of each other if and only if they compare equal and hold no address the comparison mistakes: zero only with zero, runs apart by a multiple of 4, 29-bit jumps within their range |
| PusherRelocation.OffsetForgets | tools/nv2a_capture.py:2385-2388 | two addresses have the same offset exactly when equal, or when one is zero and the other the base |
| PusherRelocation.BaseLooksLikeNothing | tools/nv2a_capture.py:2385-2388 | an address equal to its base compares equal to no address |
| PusherRelocation.MovedAddressCompares | tools/nv2a_capture.py:2385-2388 | the exact condition under which a moved address keeps its offset, zeros included |
| PusherRelocation.ZeroMovesBadly | tools/nv2a_capture.py:2385-2388 | two addresses that change their offset although they move with their base: no address, and the one that lands on zero |
| Pgraph.PgraphReplayState.constructor | tools/nv2a_capture.py:126-212 | the initial registers, buffers and transform words |
| Pgraph.PgraphReplayState.ResetBatch | tools/nv2a_capture.py:206-212 | empties every batch buffer and flag and changes nothing else |
| Pgraph.PgraphReplayState.SetTransformConstant | tools/nv2a_capture.py:214-216 | replaces one constant's four words when index and size are in range |
| Pgraph.PgraphReplayState.ApplyMethod | tools/nv2a_capture.py:298-428 | one method call: class binding, object resolution, stores and checkpoint exactly as specified |
| PgraphProofs.SizesNeverChange | tools/nv2a_capture.py:298-428 | over every run the arrays keep their sizes |
| PgraphProofs.ClassesFollowBindings | tools/nv2a_capture.py:308-315 | a subchannel's class is that of its last binding call |
| PgraphProofs.StepSplits | tools/nv2a_capture.py:308-315 | calls that do not reach the Kelvin object store nothing but a class binding and report nothing |
| PgraphProofs.BuffersHoldFirstSent | tools/nv2a_capture.py:347-388 | after every run the batch buffers hold the first items sent since the last BEGIN or END, as many as fit, and each overflow flag tells exactly whether something was dropped |
| PgraphProofs.BeginOrEndEmptiesBatch | tools/nv2a_capture.py:398-427 | every BEGIN and every END leaves all batch buffers and flags empty, also the END that reports nothing |
| PgraphProofs.EndReportsBatch | tools/nv2a_capture.py:398-427 | END reports vertices before inline words before indices; an indexed batch carries the first 4096 indices sent since BEGIN |
| PgraphProofs.BufferLimits | tools/nv2a_capture.py:347-388 | 64 words per immediate vertex, and an overflow flag means its buffer is exactly full |
| PgraphProofs.ProgramStaysCounted | tools/nv2a_capture.py:330-336 | the instruction count never exceeds 136 and every word behind it is still unwritten |
| PgraphProofs.SetConstantExact | tools/nv2a_capture.py:214-216 | a state record overlays one constant and nothing else, or changes nothing |
| PgraphProofs.RegistersHoldLastWrites | tools/nv2a_capture.py:319-320 | every register holds the last data a Kelvin method wrote to it, or its default |
| PgraphProofs.CheckpointsNumbered | tools/nv2a_capture.py:250-296 | checkpoints are numbered from zero without a gap |
| PgraphReports.MethodExactly | tools/nv2a_capture.py:319-319 | a call is for its method number without the two low bits, modulo 0x2000 |
| PgraphReports.ReachesExactly | tools/nv2a_capture.py:308-315 | a call reaches the Kelvin object when it is no binding and its subchannel is bound to class 0x97 or not at all |
| PgraphReports.RegistersAtStart | tools/nv2a_capture.py:126-143 | every register before any call |
| PgraphReports.OpenFollowed | tools/nv2a_capture.py:398-427 | over every run, the open primitive is the data of the last BEGIN or END |
| PgraphReports.ReportsExactly | tools/nv2a_capture.py:250-428 | over every run and told from the events alone: an event reports a clear, a draw of as many vertices as the top byte of its data says plus one, or a present exactly when it reaches the Kelvin object with method 0x1D94, 0x1810 or 0x0130, a batch only at END, and nothing else; each report has the method, data, frame, record, method index, primitive and state of its call |
| PgraphWrites.CellsHoldLastWrites | tools/nv2a_capture.py:319-378 | after any run every program word, constant, attribute component, attribute format, matrix and viewport element holds the last thing written to it, told from the calls and state records alone: upload positions from the last load and the words since, the others from the method address |
| PgraphWrites.CursorFollowed | tools/nv2a_capture.py:321-340 | over every run the write positions follow the last load and the words sent since, up to the end of the memory |
| PgraphWrites.CountCoversStores | tools/nv2a_capture.py:330-336 | over every run the instruction count is the least that covers every program word stored |
| PgraphWrites.ProgramUploadRun | tools/nv2a_capture.py:330-336 | any run of program words stores them in order from the write position, drops those past the end, counts the instructions touched and changes nothing else of the program |
| PgraphWrites.ConstantUploadRun | tools/nv2a_capture.py:337-340 | the same for constants |
| PixelMemory.PixelMemoryRegion.OverlayUnknown | tools/nv2a_capture.py:442-456 | overlaying one observation keeps every byte at its oldest observation and counts exactly the new disagreements |
| PixelMemory.PixelMemoryRegion.CatchUp | tools/nv2a_capture.py:495-497 | overlaying the missed observations brings a region up to date and counts their disagreements once |
| PixelMemory.PixelMemoryRegion.Grow | tools/nv2a_capture.py:486-494 | growing overlays what was seen on the new bytes only and counts their disagreements once |
| PixelMemory.CapturedPixelMemory.Observe | tools/nv2a_capture.py:466-474 | keeps every region, the conflict total and the page index exact for one more observation |
| PixelMemory.CapturedPixelMemory.Ensure | tools/nv2a_capture.py:476-498 | creates or grows a region; contents and conflict total are those of the observations so far |
| PixelMemory.DisagreementsNext | tools/nv2a_capture.py:451-452 | one more observation adds a disagreement exactly where it contradicts the oldest one |
| PixelMemory.IndexObservation | tools/nv2a_capture.py:469-471 | the observation is listed for exactly the pages it touches |
| PixelMemory.AddCandidates | tools/nv2a_capture.py:511-514 | observations not listed for a range's pages hold no byte of it |
| PixelMemory.CapturedPixelMemory.ReadObserved | tools/nv2a_capture.py:506-528 | for a positive size the indexed read equals a newest-first scan of all observations over both aliases; size 0 reads nothing |
| PixelMemoryLaws.OldestExactly | tools/nv2a_capture.py:442-457 | a region keeps the byte of the first observation that covers an address, and none if and only if none covers it |
| PixelMemoryLaws.DisagreementsExactly | tools/nv2a_capture.py:442-457 | the conflicts at an address are the observations that show another byte there than the first one |
| PixelMemoryLaws.AliasExactly | tools/nv2a_capture.py:510-510 | the alias of an address is its lower 26 bits behind 0x80000000 |
| PixelMemoryLaws.NewestExactly | tools/nv2a_capture.py:506-528 | a byte read is that of the last observation that covers it, at its own address rather than behind its alias |
| PixelMemory.Replay | tools/nv2a_capture.py:466-498 | for every interleaving of observations and region requests, contents and conflicts depend on the observations and the final extents alone |
| Swizzle.SwizzleTexelIndex | tools/nv2a_capture.py:1082-1096 | the loop computes the bit interleaving |
| Swizzle.IndexInverts | tools/nv2a_capture.py:1082-1096 | for all log sizes, the index of a texel is below 2^(a+b) and determines the texel |
| Swizzle.TexelInverts | tools/nv2a_capture.py:1082-1096 | every index below 2^(a+b) is the index of a texel inside the texture: with the above, a bijection |
| Swizzle.IntegerLog2 | tools/nv2a_capture.py:1099-1103 | the least power of two not below a value; exact on powers of two |
| Swizzle.BuildSampler | tools/nv2a_capture.py:1105-1187 | a sampler or a fault, never both: the first of unknown format, bad dimensions, unobserved source and unobserved palette; a sampler that is built has the source and palette bytes that were observed, of exactly the sizes its layout needs |
| Swizzle.ReadPalette | tools/nv2a_capture.py:1145-1171 | the candidate addresses are tried in order and the first observed one gives the palette bytes |
| Swizzle.TexelInside | tools/nv2a_capture.py:1211-1227 | a texel inside the texture lies inside the source, swizzled or linear |
| Swizzle.TexelsDisjoint | tools/nv2a_capture.py:1211-1227 | distinct texels read disjoint bytes, swizzled or linear |
| Swizzle.FetchTexel | tools/nv2a_capture.py:1211-1229 | after clamping, any coordinates give the unpacked color or the palette entry of one texel inside the source |
| Swizzle.Unpack565Lossless | tools/nv2a_capture.py:1190-1208 | a 5-6-5 texel can be told from its color |
| Swizzle.Unpack4444Lossless | tools/nv2a_capture.py:1190-1208 | a 4-4-4-4 texel can be told from its color |
| TextureLaws.FormatsExactly | tools/nv2a_capture.py:1061-1079 | which color formats are known, and the size, layout and kind of each |
| TextureLaws.Texel565 | tools/nv2a_capture.py:1194-1197 | the color of a 5-6-5 texel from its red, green and blue, opaque |
| TextureLaws.Texel555 | tools/nv2a_capture.py:1198-1201 | the color of a 5-5-5 texel from its red, green and blue whatever its top bit, opaque |
| TextureLaws.Texel4444 | tools/nv2a_capture.py:1202-1206 | the color of a 4-4-4-4 texel from its alpha, red, green and blue |
| TextureLaws.TexelGrey | tools/nv2a_capture.py:1207-1209 | the color of a luminance texel: three equal channels, opaque |
| TextureLaws.TexelWhole | tools/nv2a_capture.py:1192-1193 | the color of a 4-byte texel is the texel |
| TextureLaws.FetchedByFormat | tools/nv2a_capture.py:1061-1229 | for every color format, the color fetched of a texel from its bytes in the sampler that was built for it |
| TextureLaws.BitsInterleave | tools/nv2a_capture.py:1082-1096 | every bit of a swizzled index: those of x and y in turn, x first, then those of the longer side |
| TextureLaws.PlaceExactly | tools/nv2a_capture.py:1211-1223 | where a texel lies: by row and column, or by its swizzled index; coordinates outside count as the nearest edge |
| TextureLaws.DimensionsExactly | tools/nv2a_capture.py:1115-1125 | the size of a texture by its format and image rectangle |
| TextureLaws.SourceExactly | tools/nv2a_capture.py:1126-1140 | which bytes are the texture's, and its pitch |
| TextureLaws.PlacesExactly | tools/nv2a_capture.py:1153-1163 | where a palette is looked for, in which order |
| TextureLaws.PaletteReadExactly | tools/nv2a_capture.py:1151-1170 | a palette of 1024 bytes, halved as often as two bits of its state say, is the first of these places at which all of it was captured, and missing if and only if none was |
| TextureLaws.PaletteExactly | tools/nv2a_capture.py:1142-1171 | the entries of a palette are its 4-byte colors in order, zero where there are none |
| TextureLaws.FaultExactly | tools/nv2a_capture.py:1105-1171 | which fault of a texture is reported first |
| PixelSurface.GeometryFits | tools/nv2a_capture.py:661-673 | a row of color pixels always fits the color pitch, and a surface always has a row |
| PixelLaws.GeometryExactly | tools/nv2a_capture.py:661-673 | color pitch, width and height of the surface from its registers |
| PixelLaws.DepthExactly | tools/nv2a_capture.py:1605-1615 | size and pitch of depth values from their registers, and the length of their region |
| PixelLaws.SkippedExactly | tools/nv2a_capture.py:1480-1491 | exactly which triangles are skipped |
| PixelLaws.CoversExactly | tools/nv2a_capture.py:1496-1515 | a pixel is covered exactly when its centre is a mix of the vertices with no weight below -0.0001 |
| PixelLaws.InsideTouched | tools/nv2a_capture.py:1486-1515 | a pixel of the surface whose centre is in a triangle that is not skipped is touched |
| PixelLaws.TouchesExactly | tools/nv2a_capture.py:1486-1515 | the pixels touched are exactly those of the surface, in the box around the triangle, that are covered |
| PixelSurface.ColorInside | tools/nv2a_capture.py:1462-1464 | every color access of a pixel of the surface is inside the color region, always |
| PixelSurface.DepthInsideExactly | tools/nv2a_capture.py:1436-1445 | every depth access of a pixel of the surface is inside a depth region of exactly its size if and only if a row of depth values fits the depth pitch |
| PixelSurface.TouchedInside | tools/nv2a_capture.py:1479-1501 | every pixel a triangle touches is a pixel of the surface |
| PixelSurface.WriteFragment | tools/nv2a_capture.py:1422-1464 | a fragment raises exactly when its depth access, or the color access after it, is outside its region |
| PixelSurface.FillTriangle | tools/nv2a_capture.py:1466-1562 | the scan of a triangle raises if and only if depth is tested and a pixel it touches is outside the depth region |
| PixelSurface.WideFits | tools/nv2a_capture.py:1466-1562 | with rows that fit the depth pitch no triangle leaves the depth region |
| PixelSurface.TrianglesFitExactly | tools/nv2a_capture.py:1466-1562 | no triangle at all leaves a depth region of exactly its size if and only if a row of depth values fits the depth pitch |
| PixelSurface.SliceHolds | tools/nv2a_capture.py:543-554 | assigning a row of bytes to a slice by steps fits exactly when its last byte is inside the buffer |
| PixelSurface.ClearMasked | tools/nv2a_capture.py:530-554 | a clear raises exactly when a byte it writes is outside its region |
| PixelSurface.ExecuteClear | tools/nv2a_capture.py:1644-1721 | the color part of a clear never raises; the clear raises exactly when a depth byte it writes is outside the depth region, and is counted when it does not and its rectangle is not empty |
| PixelLaws.RectExactly | tools/nv2a_capture.py:1647-1654 | the pixels a clear covers, from its two rectangle registers and the surface |
| PixelLaws.ColorFlagsExactly | tools/nv2a_capture.py:1656-1679 | which color bytes each flag of a clear clears |
| PixelLaws.DepthFlagsExactly | tools/nv2a_capture.py:1681-1717 | which depth and stencil bytes each flag of a clear clears |
| PixelSurface.WholeClearRaisesExactly | tools/nv2a_capture.py:1644-1721 | a clear of the depth of the whole surface raises if and only if a row of depth values does not fit the depth pitch |
| PixelSurface.PresentInside | tools/nv2a_capture.py:562-584 | the rows a present copies stay inside both regions, so no copy changes their length |
| PixelDraw.ActiveStages | tools/nv2a_capture.py:1351-1360 | the stages found active are exactly those with a format, an enabled control and a mode |
| PixelDraw.TrianglesInside | tools/nv2a_capture.py:1289-1308 | every triangle of a primitive names three different vertices of the draw |
| PixelDraw.TriangleCount | tools/nv2a_capture.py:1289-1308 | how many triangles each supported primitive has, for every vertex count |
| PixelShapes.ListShape | tools/nv2a_capture.py:1289-1308 | a list: the vertices in order, three to a triangle, those left over dropped |
| PixelShapes.StripShape | tools/nv2a_capture.py:1289-1308 | a strip starts with the first three vertices, and every triangle has the last two vertices of the one before and then the next vertex |
| PixelShapes.FanShape | tools/nv2a_capture.py:1289-1308 | a fan or polygon: every triangle has the first vertex and two neighbours and shares its last vertex with the next one |
| PixelShapes.QuadShape | tools/nv2a_capture.py:1289-1308 | quads: each pair of triangles covers four consecutive vertices and shares a diagonal |
| PixelShapes.QuadStripShape | tools/nv2a_capture.py:1289-1308 | a quad strip: the same, consecutive quads sharing an edge |
| PixelShapes.HalvesCover | tools/nv2a_capture.py:1289-1308 | two such triangles have no vertex twice, share exactly the diagonal and have all four vertices |
| PixelDraw.TrianglesOfPrimitive | tools/nv2a_capture.py:1289-1308 | whether a primitive has triangles does not depend on the vertex count |
| PixelDraw.DrawUnsupportedReason | tools/nv2a_capture.py:1338-1421 | the checks in order find the first reason against a draw |
| PixelLaws.RefusedExactly | tools/nv2a_capture.py:1338-1420 | the checks of a draw by register number, in order, and the reason each gives |
| PixelLaws.StageExactly | tools/nv2a_capture.py:1354-1363 | when a texture stage is active, and its mode, by register and bit |
| PixelLaws.CombinersExactly | tools/nv2a_capture.py:1374-1415 | exactly which combiner set-ups can be replayed, by register and value |
| PixelLaws.IndicesExactly | tools/nv2a_capture.py:1581-1587 | which vertices a draw has |
| PixelLaws.SurfacesExactly | tools/nv2a_capture.py:1596-1618 | the checks of the surfaces by register number, in order |
| PixelLaws.FaultsExactly | tools/nv2a_capture.py:1564-1618 | the order of all faults of a draw |
| PixelDraw.TrianglesKnown | tools/nv2a_capture.py:1418-1421 | a draw that is not refused has triangles whatever was read, so the assertion before they are drawn holds |
| PixelDraw.ExecutedExactly | tools/nv2a_capture.py:1338-1642 | exactly the draws that are executed: a drawing kind and supported primitive with three vertices or more, a supported pipeline, a sampler if textured, every vertex readable, a color surface, with depth testing a usable and known depth surface, and every pixel touched inside the depth region |
| PixelDraw.FindDrawFault | tools/nv2a_capture.py:1564-1616 | the exits before the triangles in order: the first that is taken gives the fault, and without one all vertices are read |
| PixelDraw.FaultlessExactly | tools/nv2a_capture.py:1564-1616 | exactly the draws that no fault stops |
| PixelDraw.DrawTriangles | tools/nv2a_capture.py:1618-1634 | the triangles of a draw raise if and only if depth is tested and one of them leaves the depth region |
| PixelDraw.RaisesExactly | tools/nv2a_capture.py:1564-1634 | a draw of vertex arrays that no fault stops and that tests depth can raise, for the vertices it may meet in a region of exactly its size, if and only if a row of depth values does not fit the depth pitch |
| PixelDraw.NarrowRaises | tools/nv2a_capture.py:1437-1443 | a draw of two pixels in a row with a depth pitch of one value: no fault stops it, and it raises |
| PixelDraw.NarrowClearRaises | tools/nv2a_capture.py:543-554 | a depth clear of the same two pixels raises |
| PixelReplay.ScanoutMemoryRecords | tools/nv2a_capture.py:2120-2140 | exactly the memory records directly before a scanout of their size are excluded |
| PixelReplay.OfflinePixelReplay.NoteUnsupported | tools/nv2a_capture.py:1742-1743 | the count of its reason grows by one and no other changes, so the total grows by one |
| PixelReplay.OfflinePixelReplay.ExecuteDraw | tools/nv2a_capture.py:1564-1642 | one of three things happens: the first fault is counted and nothing else; without one the draw counts as executed, as textured if it is, with all its triangles; or a triangle raises and nothing is counted; the sampler and triangle assertions hold |
| PixelReplay.OfflinePixelReplay.Dispatch | tools/nv2a_capture.py:2184-2192 | clears and presents act at once, other batches are counted, draws wait |
| PixelReplay.Flush | tools/nv2a_capture.py:2160-2162 | the waiting draw runs before the next record that is not a memory record |
| PixelReplay.ReplayPixels | tools/nv2a_capture.py:2143-2201 | over every record stream the replay does what the look-ahead specification asks, in order, up to and including the first draw or clear that raises, all of it if and only if none does, and its counters are those of what it did |
| PixelReplay.DrawsSeeTheirInputs | tools/nv2a_capture.py:2143-2201 | what the look-ahead specification asks has each draw checkpoint once and in order, on its own state and objects, after exactly the memory records up to the first other record behind it |
| PixelReplayLaws.FrontIsRun | tools/nv2a_capture.py:2143-2195 | the state before every record is that of a PGRAPH run of exactly the method and state records before it, each call with its own fields, record number, method number and the objects of the last RAMIN record |
| PixelReplayLaws.CheckpointIsReported | tools/nv2a_capture.py:2172-2184 | what a method record reports is what its call reports in such a run |
| PixelReplayLaws.AtOnceExactly | tools/nv2a_capture.py:2160-2197 | what each record asks at once: clears and presents of their own state and frame, other batches, objects, observations and scanouts, and nothing for a draw |
| PixelReplayLaws.EffectsInOrder | tools/nv2a_capture.py:2143-2201 | leaving the waiting draws aside, what is asked is what the records ask at once, record by record: waiting draws reorder nothing else |
| PixelReplayLaws.CountedAs | tools/nv2a_capture.py:1564-1740 | what each action adds to each counter, triangles included |
| PixelReplayLaws.CountersExactly | tools/nv2a_capture.py:1564-1740 | over every log the counters count the draws that no fault stops and that do not raise, those of them with an active first stage, the clears of a non-empty rectangle that do not raise, and the presents |
| PixelReplay.EveryDrawAccounted | tools/nv2a_capture.py:2143-2201 | over every record stream in which nothing raises, executed draws plus all reason counts equal the number of draw and batch checkpoints |
| PixelReplay.AbortedAccounted | tools/nv2a_capture.py:2143-2201 | when something raises, executed draws plus all reason counts equal the number of draws and batches before it |
| PixelReplay.WideRuns | tools/nv2a_capture.py:2143-2201 | with rows that fit the depth pitch at every draw and clear, every replay runs to its end |
| PixelReplay.NarrowUncounted | tools/nv2a_capture.py:1564-1642 | a draw that raises is neither executed nor counted |
| PixelReplay.ReasonsCounted | tools/nv2a_capture.py:1742-1743 | every reason is counted exactly as often as it arose |
| PixelReplay.SourceIndicesComplete | tools/nv2a_capture.py:1583-1596 | over every record stream, a draw checkpoint has as many vertices as it says |
| TraceAssembly.AssembleLogicalRecords | tools/traceevt.py:41-88 | the loop returns the groups and the violations of the specified decomposition, in input order |
| TraceAssembly.ReadGroup | tools/traceevt.py:66-82 | the continuation loop finds the first fault of a group, or its arguments |
| TraceLaws.FaultExactly | tools/traceevt.py:66-82 | a group fails at its first continuation that is missing or differs in event, tick, sequence or thread: as partial when the records end there, and as malformed otherwise |
| TraceLaws.RecordBecomes | tools/traceevt.py:51-87 | what every record becomes: itself, an orphan with its event and index, a fault that takes one record, or a group with the arguments of all its records |
| TraceAssembly.ItemsMakeUpInput | tools/traceevt.py:41-88 | the assembled groups and the violating records, in order, make up the input |
| TraceAssembly.RecordsConserved | tools/traceevt.py:41-88 | the record count is the size of the assembled groups plus the number of violations |
| TraceAssembly.AssemblyInvertsFlattening | tools/traceevt.py:41-88 | flattening any valid logical records and assembling them gives them back with no violation |
| TraceAssembly.CheckSequences | tools/traceevt.py:143-152 | the dictionary loop reports the specified sequence faults |
| TraceAssembly.SequenceCheckExact | tools/traceevt.py:143-152 | nothing is reported if and only if every thread's sequence numbers strictly increase |
| TraceLaws.FaultsExactly | tools/traceevt.py:143-152 | the faults are, in order, exactly those of the records whose number does not exceed that of the last checked record of their thread, each with the thread and both numbers; attachments and drop notes take no part |
| Signatures.UsableOffsets | tools/oovpa/gen_oovpa.py:185-190 | all offsets outside relocated dwords and up to the limit, in order |
| Signatures.AllOffsetsUsable | tools/oovpa/gen_oovpa.py:185-190 | that list holds exactly the usable offsets, in increasing order |
| Signatures.Snap | tools/oovpa/gen_oovpa.py:197-203 | exactly the least usable offset and those nearest to the evenly spread targets, the lower of two equally near, are chosen, each once; of two or more the greatest is one |
| Signatures.TopUp | tools/oovpa/gen_oovpa.py:204-210 | filling up reaches exactly the wanted number, keeps what was picked and takes the lowest usable offsets not picked yet |
| Signatures.PickPairs | tools/oovpa/gen_oovpa.py:178-211 | exactly the wanted number of strictly increasing unrelocated pairs from the least to the greatest usable offset, at the offsets nearest to the evenly spread targets and besides these at the lowest ones; a failure exactly when there are too few |
| SignatureLaws.PicksUnique | tools/oovpa/gen_oovpa.py:195-211 | this determines the signature: two choices of as many pairs that meet it are equal |
| SignatureLaws.TargetExactly | tools/oovpa/gen_oovpa.py:199-201 | the targets are the offsets at equal steps from 0 to the limit, rounded down |
| SignatureLaws.LastOffsetExactly | tools/oovpa/gen_oovpa.py:188-190 | the limit is the last offset of the body, or the greatest allowed one if that comes first; no usable offset is behind it |
| Signatures.SignatureFindsBody | tools/oovpa/gen_oovpa.py:178-285 | wherever the body lies, with any relocated values, its signature matches and the scan finds it |
| Signatures.CountMatches | tools/oovpa/gen_oovpa.py:262-274 | the anchored count equals the number of bases the scan of every base accepts |
| Signatures.FindMatches | tools/oovpa/gen_oovpa.py:277-285 | the first matches up to the limit, at least one if there is one |
| Signatures.FindMatchesAnchored | tools/oovpa/scan_oovpa.py:153-169 | the anchored, limited scan returns the same list |
| Signatures.Found | tools/oovpa/gen_oovpa.py:277-285 | a base is listed exactly when every pair holds there |
| MaskedMatching.UnmaskedRuns | tools/oovpa/xdklib.py:183-197 | the maximal runs of unrelocated offsets, in order and complete |
| MaskedMatching.RunListed | tools/oovpa/xdklib.py:183-197 | the list of runs leaves no maximal run out |
| MaskedMatching.RunsAddUp | tools/oovpa/xdklib.py:183-197 | the run lengths add up to the number of unrelocated bytes |
| MaskedMatching.PlacedByRuns | tools/oovpa/xdklib.py:212-216 | comparing run by run decides whether all unrelocated bytes agree |
| MaskedMatching.ExactMatches | tools/oovpa/xdklib.py:200-218 | with a run of five bytes or more, the first places in ascending order at which all unrelocated bytes agree; without one, nothing |
| MaskedMatching.Score | tools/oovpa/xdklib.py:221-247 | the least unrelocated offset inside the image at which the body differs, and the exact fraction of agreeing bytes |
| MaskedMatching.FullScoreIsPlacement | tools/oovpa/xdklib.py:221-247 | inside the image, no divergence, and likewise a full count, means exactly that the body lies there |

## Left out

- Host files and paths: directory iteration, stream errors, path building; a source is a tree of names, scan-time sizes and contents, an image is a sequence of bytes.
- Command lines, messages, exit codes and JSON reports.
- Walking images that hold no tree, cyclic ones in particular; the walk is proved on images that hold a tree, as every written one does.
- XisoReader.Extract: skips no path. The source skips every file whose host path has a ".." part (xiso.cpp:344-352), all of them when the destination has one, so what is proved of extraction and of the round trip speaks of destinations and names without such a part.
- XisoWriter.Create: requires tables of at most 0x40000 bytes and sectors that fit 32 bits; the source checks neither, and past them child pointers, cursors and sector numbers wrap around.
- XisoReader.Open: the file time and the tail magic are read past, since the source only warns about them.
- Rounding and non-finite values: vertex-program values, vertices and match fractions are exact reals, so infinities and NaN are excluded as well as rounding and overflow; where the source rounds or raises on them, nothing is said.
- VertexProgram.AcceptedRuns: speaks of finite values; an address load of an infinity or NaN raises in the source (nv2a_capture.py:871).
- VertexProgram.SupportedNeverStuck: likewise.
- Running out of memory.
- VertexProgram.AssembledInputsExact: says nothing of programs that read a missing component of the position before writing it, for which the result depends on the values met.
- The color and depth values rasterisation writes, texture filtering and addressing modes, and the color arithmetic of combiners.
- Swizzle.BuildSampler: the texture and palette base addresses are given; resolving a context to its base address is left out, as are the addressing and filter modes a sampler only hands on.
- PixelReplay.OfflinePixelReplay.ExecuteDraw: the verdict on the vertex program, the sampler, the vertices that can be read, whether the depth surface is known, the lengths regions already have and the outcome of depth tests are given, arbitrary functions of everything asked before the draw; the surface remembered for antialiasing is not modelled.
- PixelReplay.ReplayPixels: what a draw, clear or present does to pixels.
- PixelMemory.CapturedPixelMemory.Ensure: regions are a list in creation order with distinct addresses; clears and copies that write regions directly are not part of the model.
- PusherRelocation.ComparisonEvents: records without push-buffer addresses are opaque values, and the strict-address signatures are not modelled.
- PusherRelocation.RelocatedCapturesCompareEqual: of the capture validation, only the replay's own errors and the comparison with the recorded methods are modelled.
- Checksums, including the state checksum of a checkpoint, which is represented by the state itself.
- Reading COFF, PE and XBE files, the linker-member index, call-chain signatures, fuzzy matching and the OOVPA text format.
- TraceAssembly.AssembleLogicalRecords: the event registry is a map from event ids to continuation ids; names, formats and the sorting of decoded records are not modelled.
