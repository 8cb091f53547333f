# A verified model of Crimp's firmware readers and matchers

Crimp opens router and IoT firmware images without mounting them, lists or extracts the file systems inside, names the
components it finds and matches their versions against a vulnerability list. This project models the parts of it where a
mistake would be hard to see, and proves what they are for.

* **JFFS2** (`Jffs2Log`, `Jffs2View`, `Jffs2Replay`, `Jffs2Reader`). A log of versioned nodes is scanned across padding,
  sorted, searched by bisection, grouped into runs and replayed into file contents. Each of these fast forms is proved
  against the plain meaning of a log: the newest record of a name, of an inode and of a byte wins.
* **SquashFS** (`SquashfsStream`, `SquashfsInode`, `SquashfsFile`, `SquashfsReader`, `SquashfsImage`, `DataBlocks`). A buffered cursor over
  a chain of small blocks behaves like one flat stream; directories, inodes, fragment tables and file data that were written
  read back whatever the block cuts.
* **cramfs** (`CramfsReader`, `CramfsImage`). Bit-packed inodes in either byte order, directory regions walked with a shared
  position and budget, and block pointers that tile a file.
* **The shared walk** (`Bytes`, `Paths`, `Walk`). All three readers visit directories in the same way, so the listing, the
  extracted tree, its containment in the output directory and the agreement between listing and extraction are proved once,
  for any reader, and then used for each.
* **Whole images** (`WrittenTree`, `Jffs2Tree`, `SquashfsTree`, `CramfsTree`). For each format: what it means that an image was
  written from a directory tree, whatever its layout, order, compression and byte order; such an image lists and extracts as
  the tree does, and extracted into an empty directory it leaves exactly the tree. Conversely every image that extracts was
  written from a tree: the readers accept nothing that the format does not say. What is written is described with the numbers
  of the format, not through the readers' functions.
* **Extract, then replace** (`RemoveTree`, `ReplaceProtocol`, `StaleFiles`, `ReplaceExamples`). Clean up, extract beside the output, remove the old output,
  rename. Every step is recorded, and what any number of calls can leave at the output path is proved over the recorded steps.
* **Version order and ranges** (`VersionOrder`, `AffectedRange`). The hand-written comparator is a total preorder on all strings,
  and the range evaluator accepts exactly the lists of a small grammar.
* **Dropbear's version** (`DropbearScan`) and **the CycloneDX writer** (`Json`, `SbomText`, `Sbom`, `SbomReader`). A one-pass scan
  meets a specification with quantifiers over all tokens, and what the printer prints is parsed back.

Code that changes state is modelled by methods and classes (`Walk.WalkContext`, `SquashfsStream.MetadataCursor`,
`Sbom.OutStream`, `RemoveTree.FileSystem`, the JFFS2 content buffer as an array), each proved to do what a specification function
says. The theorems are about those functions, so they hold of the methods. An image is an immutable sequence of bytes. zlib and
xz are arbitrary functions from packed bytes and a size limit to an optional result. What the operating system would allow is
an arbitrary predicate on paths, the same throughout one call.

## Where the code and its documentation differ

The model follows the code. For each difference there are lemmas with a failing input, and one that says exactly when the code
does what is promised.

* The comment at `src/extract/identify.c:113-123` says that the output is always untouched, or replaced by a complete new tree in
  a call that succeeds. `ReplaceProtocol.PromiseKeptIff` says when that is so: nothing is extracted; or the rename is permitted and
  everything in its way can be removed; or nothing at the output can be removed. `ReplaceProtocol.PromiseSeenBeforehandIff` says the
  same entirely in terms of what can be seen before the call. In `ReplaceExamples.RenameFailureLosesOutput` the rename fails and the
  old output is gone, in `ReplaceExamples.StubbornFileLosesOthers` one file cannot be removed and only the others are lost. What does
  hold over any run of calls, completed or cut short, is that the output is never a mix of the trees of two calls
  (`ReplaceProtocol.NeverAMix`), nor of two images where every clean-up can remove what it finds
  (`ReplaceProtocol.NeverAMixOfImages`).
* The same comment promises no stale files. In `ReplaceExamples.LeftoversArePublished` a file at the temporary path cannot be
  removed, the call succeeds and the file is at the output; in `ReplaceExamples.LeftoverDirectoryBlocksFile` a directory cannot be
  removed, and a call fails that would otherwise succeed. `StaleFiles.NoStaleFilesIff` says exactly when a successful extraction
  leaves nothing stale, and exactly when its tree is the one a clean path gives. `StaleFiles.LeftoversAreHarmlessIff` covers
  success and failure: exactly when leftovers make no difference at all. `RemoveTree.RemovedIsEmptyIff` says exactly when the
  clean-up removes everything.
* `include/crimp/cve.h:24-31` describes conditions as `OP VERSION` with "no spaces required". Spaces after the operator become
  part of the version, whose first segment is then read as zero, and count towards its 63 characters.
  `AffectedRange.SpaceAfterOperatorCounts` and `AffectedRange.SpaceOverflowsTheToken` give inputs where the answer changes.
  `AffectedRange.SpaceIsHarmlessIff` gives the exact condition: the token still fits and the bound's first segment is zero, or it no
  longer fits and the condition was one that no version satisfies. `AffectedRange.HarmlessInEveryListIff` and
  `AffectedRange.OverflowInEveryList` do the same for a condition in a longer list.
* The numeric part of a segment saturates beyond 18 digits, leading zeros included. `VersionOrder.LeadingZerosSaturate` gives an
  input that then sorts wrongly, `VersionOrder.NumberIsExact` says exactly when the number is the one written, and
  `VersionOrder.NumbersOrderByValueIff` exactly when two numbers are ordered by their values.
* The same header says that the suffix breaks ties. The code folds upper case and keeps seven letters.
  `VersionOrder.LongSuffixesTie` gives two suffixes that do not break their tie, `VersionOrder.SuffixBreaksTiesIff` says exactly which
  do, and `VersionOrder.SuffixIsWholeIff` exactly which are read whole.

## Model

| member | source | states |
|---|---|---|
| Bytes.U16Codec | src/extract/fs_util.c:23-28 | Two bytes decode to a number exactly when they are that number's encoding, in either byte order. |
| Bytes.U32Codec | src/extract/fs_util.c:14-21 | Four bytes decode to a number exactly when they are that number's encoding, in either byte order. |
| Bytes.LeRoundTrip | src/extract/squashfs.c:384-399 | A little-endian field of any width gives back every number that fits it. |
| Bytes.PutLeRoundTrip | src/extract/squashfs.c:384-399 | Writing back what a little-endian field decodes to gives the same bytes, so decoding is one-to-one. |
| Paths.MatchesAny | src/extract/fs_util.c:59-79 | The case-blind comparison loop finds a candidate exactly when the name has its length and each byte is the candidate's, or the capital letter 32 below it. |
| Paths.IsWindowsReservedName | src/extract/fs_util.c:51-80 | True exactly for the names whose part before the first dot is a device name in upper or lower case letters, byte by byte. |
| Paths.PathComponentIsSafe | src/extract/fs_util.c:82-111 | Accepts exactly the names that are not empty, `.`, `..` or a device name and hold no separator, drive colon or NUL; the device names are spelled out. |
| Paths.ReservedIffDeviceName | src/extract/fs_util.c:43-80 | Reserved are exactly the names that, up to the first dot, are `con`, `prn`, `aux`, `nul`, `com1`-`com9` or `lpt1`-`lpt9`, each letter small or capital. |
| Paths.SafeIffPlain | src/extract/fs_util.c:82-111 | Accepted are exactly the plain names, described by their bytes alone. |
| Paths.CaseIsIrrelevant | src/extract/fs_util.c:51-80 | Two names that differ only in the case of letters are both reserved or both not. |
| Paths.JoinSplit | src/extract/fs_util.c:160-167 | Joining the components of a path gives the path back. |
| Paths.ChildComponents | src/extract/fs_util.c:82-111 | Joining an accepted name to any path adds exactly one component: it cannot climb out of a directory or skip one. |
| Paths.ComponentsInjective | src/extract/fs_util.c:160-167 | Two paths with the same components are the same path, so different entries never collide by joining. |
| Walk.WalkContext.constructor | src/extract/jffs2.c:805-836 | A walk starts with an empty entry list, over the tree that is already at the output. |
| Walk.WalkContext.AddEntry | src/extract/fs_util.c:175-197 | One entry is appended; the entries before it and the tree are unchanged. |
| Walk.WalkContext.MakeDirectoryAt | src/extract/fs_util.c:134-158 | Succeeds exactly if a directory is there already, or nothing is and the parent exists and the host permits it; then a directory is there, otherwise nothing changes; no other path changes in either case. |
| Walk.WalkContext.WriteFileAt | src/extract/jffs2.c:532-604 | Succeeds exactly if no directory is in the way, the parent exists and the host permits it; then the file is there with this content, otherwise nothing changes; no other path changes in either case. |
| Walk.WritingStaysRooted | src/extract/fs_util.c:134-158 | Writing below an existing directory keeps every path of the tree inside a directory of the tree. |
| Walk.WalkIsContained | src/extract/fs_util.c:82-111 | Every path a walk emits is non-empty and made of accepted names only, for any reader, image and depth. |
| Walk.WalkVisitsExactly | src/extract/jffs2.c:645-708 | A successful walk visits a path as something exactly when following the path's components from the root, directory by directory, leads to it: nothing is missed or invented. |
| Walk.WalkIsATree | src/extract/jffs2.c:616-708 | Where names are unique within each directory that can be reached, no path is emitted twice and each directory comes before what it holds, also in cyclic directory graphs. |
| Walk.ListingAgrees | src/extract/squashfs.c:782-883 | If two readings of an image differ only in content, whenever extraction with one succeeds, listing with the other succeeds with the same entries and leaves the tree alone. |
| Walk.SameChildrenSameWalk | src/extract/jffs2.c:645-708 | A walk depends only on what each directory holds, not on the image behind it. |
| Walk.LastVisitWins | src/extract/squashfs.c:675-755 | After extraction over any tree, a path holds what its last visit wrote, or what it held before if it was never written. |
| Walk.ExtractionMirrors | src/extract/jffs2.c:645-700 | From an empty tree, extraction without repeated paths succeeds exactly when each visit could be written on its own, and then the tree holds exactly the visited directories and files. |
| Walk.ExtractionHoldsItsVisits | src/extract/cramfs.c:431-457 | From an empty tree, a path exists afterwards exactly when something was written to it; it holds what the last visit wrote, and it is inside the output directory. |
| Walk.ExtractsOverIff | src/extract/squashfs.c:782-883 | Whatever is at the output already, extraction succeeds exactly when no single visit is stopped: by a directory where a file is to be or the other way round, by the host, by a path that is too long, or by content that cannot be rebuilt. |
| Walk.NothingStaleIff | src/extract/identify.c:113-123 | A successful extraction leaves nothing but what it wrote exactly when it wrote over everything that was there. |
| Walk.LeftoversMakeNoDifferenceIff | src/extract/identify.c:113-123 | Extracting over leftovers ends, in success or failure, as extracting into an empty directory does exactly when the latter succeeds and every leftover is written over by its own kind, or the latter fails and the leftovers do not help. |
| WrittenTree.ShownIsRead | src/extract/squashfs.c:899-944 | Directories that hold a tree all the way down are walked as the tree is: the same listing, writes and failures. |
| WrittenTree.LeadsWhereLookedUp | src/extract/jffs2.c:645-708 | Following names from directory to directory leads to what looking them up in the tree finds. |
| WrittenTree.TreeIsExtracted | src/extract/jffs2.c:645-708 | Extracting a tree into an empty directory succeeds exactly when each name is plain, each path is shorter than 1024 bytes and 1280 on disk, directories are at most 32 deep and the host permits each write; then every path holds what the tree has there, and nothing else exists. |
| WrittenTree.TreeIsListed | src/extract/jffs2.c:645-708 | Listing a tree gives one line for each entry, directories with size 0, files with that of their content and other nodes with the one they declare, parents first; it fails exactly when a name, path or depth is not acceptable. |
| WrittenTree.ListedIffFound | src/extract/jffs2.c:671-674 | A line is in the listing exactly when it is the one for what the tree holds at its path, and no path is listed twice. |
| WrittenTree.ExtractionIsListed | src/extract/jffs2.c:671-700 | A successful extraction reports the same lines as a listing. |
| WrittenTree.ExtractedShowsTree | src/extract/jffs2.c:645-708 | Directories of any reader that were extracted hold a tree. |
| Jffs2Log.NextMagicIsLeast | src/extract/jffs2.c:166-202 | The search yields the least of `start`, `start + 4`, … that holds the magic, and nothing only if none does. |
| Jffs2Log.FindInChunk | src/extract/jffs2.c:180-199 | One chunk either contains the answer, or the search may go on from the last word looked at. |
| Jffs2Log.FindNextNode | src/extract/jffs2.c:166-202 | The chunked search gives the least candidate for every image length and chunk alignment. |
| Jffs2Log.ScanNode | src/extract/jffs2.c:273-317 | One node appends its record, or fails the scan; the cursor moves forward and stays 4-byte aligned. |
| Jffs2Log.ScanLog | src/extract/jffs2.c:273-317 | The scan loop, cursor and growing lists compute the log that the recursive definition gives, for every image. |
| Jffs2Log.ScannedRecordsAreSound | src/extract/jffs2.c:216-271 | Accepted records have names of 1 to 255 bytes and payloads that lie inside the image. |
| Jffs2Log.NodeParses | src/extract/jffs2.c:216-271 | A written node of any kind is found where it starts, with its length and its record. |
| Jffs2Log.GapIsSkipped | src/extract/jffs2.c:273-317 | Filler without an aligned magic never hides or invents a node. |
| Jffs2Log.ScanRoundTrip | src/extract/jffs2.c:273-317 | Any list of nodes written in either byte order, with such filler between and after them and the last one padded or not, is detected and scanned back to exactly its records in order. |
| Jffs2Log.NodeIsWritten | src/extract/jffs2.c:216-306 | Whatever is accepted behind a magic is a whole node of the length in its header: no node that is cut off or has room for less than it announces is accepted. |
| Jffs2Log.ScanIsWritten | src/extract/jffs2.c:273-317 | The converse: every image that scans successfully is, byte for byte, such a written log, and its records are those of its nodes. |
| Jffs2Log.PayloadsAreThere | src/extract/jffs2.c:243-271 | Each scanned inode record points at the payload that was written with its node, before any padding at the end. |
| Jffs2Log.RecordsSay | src/extract/jffs2.c:216-271 | The records of a written log say, in order, what its nodes say: every dirent, and every inode record with the bytes of its payload. |
| Jffs2Log.WrittenLogSays | src/extract/jffs2.c:273-317 | The same for a whole written image, whose last node may be unpadded. |
| Jffs2Log.MagicDecidesEndianness | src/extract/jffs2.c:717-731 | The first magic determines the byte order, and cannot be read both ways. |
| Jffs2View.NameCmpOrders | src/extract/jffs2.c:323-333 | Names compare equal only if identical, and the sign flips when they are swapped. |
| Jffs2View.NameCmpTransitive | src/extract/jffs2.c:323-333 | The order on names is transitive. |
| Jffs2View.NameCmpIs | src/extract/jffs2.c:323-333 | Names are ordered as in a dictionary: by the first byte that differs, a name before the longer ones it begins. |
| Jffs2View.DirentOrder | src/extract/jffs2.c:337-352 | Records are ordered by directory, then by name in that order, then by version, and tie only if all three agree. |
| Jffs2View.InodeOrder | src/extract/jffs2.c:354-363 | Inode records are ordered by inode, then by version. |
| Jffs2View.ComparatorsAreTotalPreorders | src/extract/jffs2.c:337-363 | Both record comparators are total and transitive, which is what `qsort` and the searches rely on. |
| Jffs2View.Qsort | src/extract/jffs2.c:771-776 | Stands for the C library's sort: a sorted permutation, with ties in any order. |
| Jffs2View.SortIsUnique | src/extract/jffs2.c:771-776 | With distinct versions only one sorted order exists, so an unstable sort cannot be noticed. |
| Jffs2View.LowerBound | src/extract/jffs2.c:378-404 | Bisection finds the boundary: every record before it has a smaller key, and none after it has. |
| Jffs2View.RunEnd | src/extract/jffs2.c:623-643 | A run is the longest stretch of records with one parent and one name. |
| Jffs2View.LiveOfRun | src/extract/jffs2.c:623-643 | A run contributes its last record, and nothing if that is a deletion. |
| Jffs2View.DirectoryView | src/extract/jffs2.c:623-643 | For any log and any sort of it: names strictly increase, each shown record is a newest one of its name and not a deletion, and each name without a newest deletion is shown. |
| Jffs2View.DirectoryViewExact | src/extract/jffs2.c:623-643 | With distinct versions a record is shown exactly when it belongs to the directory, is not a deletion and is the newest of its name. |
| Jffs2View.LogOrderIsIrrelevant | src/extract/jffs2.c:771-776 | With distinct versions, permuting the log changes neither the sorted records nor any directory. |
| Jffs2View.InodeView | src/extract/jffs2.c:410-418 | An inode's metadata is a record of maximal version, and is missing only if the log has no record of it. |
| Jffs2View.InodeRange | src/extract/jffs2.c:392-404 | The range found holds all records of the inode and no others. |
| Jffs2View.FindInodeMeta | src/extract/jffs2.c:410-418 | The search returns the last record of the inode in sorted order, which `InodeView` shows to be the newest. |
| Jffs2Replay.ScannedFragmentsAreReadable | src/extract/jffs2.c:463-476 | An uncompressed fragment of a scanned log never falls short: it is the image's bytes at its offset. |
| Jffs2Replay.Blit | src/extract/jffs2.c:463-514 | Copying overwrites exactly the fragment's range of the buffer and no byte outside it. |
| Jffs2Replay.ReplayRange | src/extract/jffs2.c:557-584 | The loop over a zeroed buffer produces the replay of the records, or fails when the replay does. |
| Jffs2Replay.ExtractRegularFile | src/extract/jffs2.c:532-604 | The whole routine, with its size cap, finds the inode's records and replays them all in version order. |
| Jffs2Replay.LatestWriteWins | src/extract/jffs2.c:532-604 | The file has exactly its declared size; each byte is 0 if no fragment covers it, and otherwise comes from a covering fragment of maximal version. |
| Jffs2Replay.LatestWriteWinsExact | src/extract/jffs2.c:532-604 | With distinct versions each covered byte is what the newest covering fragment holds there. |
| Jffs2Replay.ReplayableFiles | src/extract/jffs2.c:532-604 | A file is rebuilt exactly when it has at most 256 MiB and every non-empty fragment that starts before its end can be fetched. |
| Jffs2Replay.WrittenFragment | src/extract/jffs2.c:463-530 | What is fetched is the start of what was written, for stored and for zlib-compressed fragments. |
| Jffs2Replay.WrittenBytesReadBack | src/extract/jffs2.c:532-604 | From a written image, each byte of a rebuilt file is the byte that the newest node covering it was written with. |
| Jffs2Replay.SortsSayTheSame | src/extract/jffs2.c:771-776 | Two logs of records that say the same, at any offsets and in any order, sort to lists that say the same, record by record. |
| Jffs2Reader.WalkDirectory | src/extract/jffs2.c:702-708 | The recursive walk ends in the specified state, with its depth cap, on every dirent graph. |
| Jffs2Reader.ForEachLiveChild | src/extract/jffs2.c:623-643 | Bisection and run grouping visit exactly the live children, in order, and stop at the first failure. |
| Jffs2Reader.VisitChild | src/extract/jffs2.c:645-700 | One child: name check, metadata, path limit, listing, writing, and recursion into directories. |
| Jffs2Reader.WriteChild | src/extract/jffs2.c:645-700 | Extraction of one child creates its directory or writes its rebuilt content, and fails where the specification does. |
| Jffs2Reader.ScanAndSort | src/extract/jffs2.c:751-780 | Succeeds exactly when the scan does; the result is a sort of exactly the scanned records. |
| Jffs2Reader.RunImage | src/extract/jffs2.c:805-836 | Nothing is created unless the image scans; the outcome is that of the walk from the root inode. |
| Jffs2Reader.NamesAreUnique | src/extract/jffs2.c:616-643 | No directory shows one name twice, whatever the log holds. |
| Jffs2Reader.ListingIsATree | src/extract/jffs2.c:616-708 | A successful walk emits no path twice, parents first, and only safe paths. |
| Jffs2Reader.ListingAgreesWithExtraction | src/extract/jffs2.c:645-708 | If extraction succeeds, listing succeeds with the same entries. |
| Jffs2Reader.ExtractionIsExact | src/extract/jffs2.c:645-708 | Extraction succeeds exactly when the walk does and every visit can be written; the tree is then exactly the visited one. |
| Jffs2Reader.ReadingIsDeterministic | src/extract/jffs2.c:751-836 | With distinct versions, two images whose records say the same, in any order and wherever their payloads lie, list and extract alike, however `qsort` orders ties. |
| Jffs2Reader.WriteOrderIsIrrelevant | src/extract/jffs2.c:751-836 | Two images written from the same nodes in two orders, with any filler, padding, checksums and byte orders, the last node padded or not, list and extract alike, if versions are distinct within each name and inode. |
| Jffs2Reader.WrittenDirectoriesReadBack | src/extract/jffs2.c:751-780 | From a written image, a directory shows exactly the newest undeleted record of each name that was written to it. |
| Jffs2Tree.HeldContentIsRead | src/extract/jffs2.c:532-604 | A file whose every byte is what the newest covering write says, and zero elsewhere, is rebuilt exactly. |
| Jffs2Tree.ReadContentIsHeld | src/extract/jffs2.c:532-604 | The converse: in a file that was rebuilt, every byte is what the newest covering write says, or zero. |
| Jffs2Tree.ShownDirIsHeld | src/extract/jffs2.c:616-708 | With distinct versions, whatever a directory shows all the way down is what was written to the log. |
| Jffs2Tree.TreeRoundTrip | src/extract/jffs2.c:616-836 | A log written for a directory tree, its nodes in any order with stale and deleted ones among them, lists and extracts as the tree; its listing is the tree's; into an empty directory it succeeds exactly when the tree can be written, and leaves exactly the tree. Directories and files are told by their modes, 0x4000 and 0x8000. |
| Jffs2Tree.ExtractedIsATree | src/extract/jffs2.c:616-836 | The converse: an image that can be extracted is a written log; it lists and extracts into anything as one tree, which with distinct versions is the tree that the log was written for. |
| SquashfsStream.MetadataCursor.constructor | src/extract/squashfs.c:245-260 | A new cursor has an empty buffer and is about to load the block it was given. |
| SquashfsStream.MetadataCursor.LoadNextBlock | src/extract/squashfs.c:198-243 | Loads the next block, stored or compressed, or fails where it cannot be; refilling an empty buffer never changes what is left to read. |
| SquashfsStream.MetadataCursor.Seek | src/extract/squashfs.c:245-260 | Positions the cursor inside its first block; what is left to read is the stream from there, and it fails exactly when the offset is past the block. |
| SquashfsStream.MetadataCursor.Take | src/extract/squashfs.c:262-276 | Hands out as much of the buffer as is wanted; nothing is lost or repeated. |
| SquashfsStream.MetadataCursor.Read | src/extract/squashfs.c:262-276 | Returns the next `n` bytes of the flat stream and advances by `n`, across any block boundaries and empty blocks; fails exactly when fewer remain, and always terminates. |
| SquashfsStream.MetadataCursor.ReadFields | src/extract/squashfs.c:384-479 | A chain of reads decodes consecutive little-endian fields of the stream. |
| SquashfsStream.ReadSeries | src/extract/squashfs.c:262-276 | Any series of reads returns consecutive slices whose concatenation is the start of the stream, so `n` then `m` is `n + m`. |
| SquashfsStream.StreamAtIsSuffix | src/extract/squashfs.c:245-260 | A block and offset name a suffix of the flat stream that starts at the block. |
| SquashfsStream.FieldsRoundTrip | src/extract/squashfs.c:384-479 | Fields that were written are parsed back, whatever follows them. |
| SquashfsStream.PutFieldsRoundTrip | src/extract/squashfs.c:384-479 | Writing parsed fields gives back the bytes they were parsed from. |
| SquashfsStream.ChunkLoads | src/extract/squashfs.c:198-243 | A written metadata block, stored or compressed, loads as its data and leads to the next. |
| SquashfsStream.ChunksStream | src/extract/squashfs.c:198-243 | However data was cut into blocks, the flat stream is the data. |
| SquashfsStream.StreamOfChunks | src/extract/squashfs.c:198-260 | A position in written data reads as the data from there on, whatever the cuts. |
| SquashfsStream.StreamedIsHeld | src/extract/squashfs.c:198-276 | The converse: whatever is read from a place is in metadata blocks there, stored or compressed, of 1 to 8192 bytes each. |
| SquashfsInode.OnlyTheSizeCapFires | src/extract/squashfs.c:334-378 | With a valid block size, the 4 GiB cap implies the overflow and block-count guards, so those never decide. |
| SquashfsInode.ValidBlockSizes | src/extract/squashfs.c:535-556 | Exactly nine block sizes are valid: 4096, 8192 and so on up to 1 MiB. |
| SquashfsInode.CountIs | src/extract/squashfs.c:334-361 | The block count is the size over the block size, rounded up without a fragment and down with one, for at most 4 GiB and 2^20 blocks. |
| SquashfsInode.ReadBlockSizes | src/extract/squashfs.c:334-378 | Reads as many 32-bit sizes as the file calls for, or fails behind the guards. |
| SquashfsInode.ReadTypedFields | src/extract/squashfs.c:481-533 | Dispatches on the inode type and reads that type's fields; an unknown type reads nothing. |
| SquashfsInode.ReadFileFields | src/extract/squashfs.c:424-467 | Reads a basic or an extended file inode, block sizes included when content is wanted. |
| SquashfsInode.ReadInode | src/extract/squashfs.c:481-533 | The cursor chain yields the inode that the flat stream holds at its reference. |
| SquashfsInode.ContentDoesNotChangeInode | src/extract/squashfs.c:481-533 | If an inode can be read for extraction, listing reads the same inode without its block sizes. |
| SquashfsFile.ReadFragmentEntry | src/extract/squashfs.c:566-601 | The two-level lookup through the offset array and a metadata block, failing where the specification does. |
| SquashfsFile.FragmentTableIsFlat | src/extract/squashfs.c:566-601 | For a table stored in blocks of 512 entries, whatever their unread last words, the lookup returns the entry of the flat table at that index, and fails exactly past its end. |
| SquashfsFile.HeldFragmentIsRead | src/extract/squashfs.c:566-601 | An entry that lies 16 bytes times its index by 512 into the block that the lookup array's eight bytes point at is the one found. |
| SquashfsFile.ReadFragmentIsHeld | src/extract/squashfs.c:566-601 | The converse: every entry found lies there. |
| SquashfsFile.ExtractRegularFile | src/extract/squashfs.c:675-755 | The block loop with its running offset and byte count, and then the fragment, produces the specified content. |
| SquashfsFile.ParsedFilesAreCounted | src/extract/squashfs.c:334-378 | Every file inode read for extraction has as many block sizes as its length calls for. |
| SquashfsFile.FileCanBeRebuilt | src/extract/squashfs.c:675-755 | A file is rebuilt exactly when each of its blocks and its tail can be. |
| SquashfsFile.FileHasItsSize | src/extract/squashfs.c:675-755 | A rebuilt file has exactly `file_size` bytes. |
| SquashfsFile.BlockFillsItsRange | src/extract/squashfs.c:643-755 | Block `i` is decoded from the sum of the sizes before it and fills bytes `i·bs` up to `min((i+1)·bs, file_size)`. |
| SquashfsFile.TailFillsTheRest | src/extract/squashfs.c:723-742 | The fragment fills what the blocks leave, always less than one block. |
| SquashfsFile.CountCoversFile | src/extract/squashfs.c:334-378 | The block count reaches the end of the file without a spare block, or leaves less than a block to the fragment. |
| SquashfsImage.SuperblockRoundTrip | src/extract/squashfs.c:48-59 | A written superblock reads back, whatever fills its unread fields and the rest of the image. |
| SquashfsImage.SuperblockIsWritten | src/extract/squashfs.c:48-59 | The converse: every image that is accepted begins with a superblock. |
| SquashfsImage.InodeRoundTrip | src/extract/squashfs.c:384-533 | An inode of each kind, basic or extended, reads back, with and without content. |
| SquashfsImage.StoredInodeReadsBack | src/extract/squashfs.c:481-533 | The same through the inode table: an inode `block` bytes behind the table's start, in whatever metadata blocks it was cut into, is the one read. |
| SquashfsImage.ReadInodeIsStored | src/extract/squashfs.c:481-533 | The converse: every inode that is read is in the inode table at that place. |
| SquashfsImage.BlockRoundTrip | src/extract/squashfs.c:607-670 | A hole, a stored block or a compressed block reads back from its size field and bytes. |
| SquashfsImage.FileRoundTrip | src/extract/squashfs.c:675-755 | A file written as such blocks one after another, each full but the last, with its tail in a shared fragment block that the fragment table leads to, reads back. |
| SquashfsImage.FileIsWritten | src/extract/squashfs.c:675-755 | The converse: every file that can be rebuilt was written so. |
| SquashfsReader.ListingRoundTrip | src/extract/squashfs.c:782-944 | Groups of 0 to 256 entries, written one after another, parse back within exactly their own size; a stored count of 0xFFFFFFFF is the empty group. |
| SquashfsReader.ListingIsWritten | src/extract/squashfs.c:782-944 | The converse: a directory parses only if its bytes are, one for one, a written listing. |
| SquashfsReader.BudgetIsExact | src/extract/squashfs.c:899-944 | A directory parses only if headers of 12 and entries of 8 plus the name's length add up to exactly `dir_size - 3`. |
| SquashfsReader.RefsOfGroups | src/extract/squashfs.c:899-944 | The running parser, which reads entry by entry, finds the entries of all groups in order, each with its group's inode block. |
| SquashfsReader.ReadEntry | src/extract/squashfs.c:782-813 | Reads one entry from the cursor and charges its length to the directory's budget. |
| SquashfsReader.WalkDirectory | src/extract/squashfs.c:899-944 | The recursive walk ends in the specified state, with its depth cap, for every image. |
| SquashfsReader.WalkListing | src/extract/squashfs.c:914-944 | The loop over groups visits exactly the references the cursor still holds within the budget. |
| SquashfsReader.WalkGroup | src/extract/squashfs.c:930-941 | The loop over one group visits its entries in order and hands the rest of the cursor and budget on. |
| SquashfsReader.VisitEntry | src/extract/squashfs.c:782-883 | One entry: name check, inode, path limit, listing, writing, and recursion into directories. |
| SquashfsReader.WriteChild | src/extract/squashfs.c:782-883 | Extraction of one entry creates its directory or writes its rebuilt content, and fails where the specification does. |
| SquashfsReader.RunImage | src/extract/squashfs.c:988-1036 | Extraction creates nothing before the superblock and block size are accepted; the outcome is that of the walk from the root inode. |
| SquashfsReader.ListingAgreesWithExtraction | src/extract/squashfs.c:946-1036 | If extraction succeeds, listing succeeds with the same entries although it reads no block sizes or contents. |
| SquashfsReader.ExtractedTree | src/extract/squashfs.c:988-1036 | From an empty tree, a path holds exactly what the last visit to it wrote, and only safe paths exist. |
| SquashfsReader.DirectoryIgnoresBlockCuts | src/extract/squashfs.c:899-944 | A listing written `blockIndex` bytes behind the directory table's start, cut into metadata blocks anywhere, yields the same names and inode references in order. |
| SquashfsReader.DirectoryIsWritten | src/extract/squashfs.c:899-944 | The converse: every directory that reads is empty, with a size below 4, or such a listing. |
| SquashfsTree.EntriesAreRefs | src/extract/squashfs.c:914-941 | Whether the entries of a tree are found group by group or reference by reference is the same. |
| SquashfsTree.ShownDirIsHeld | src/extract/squashfs.c:946-1036 | Whatever a directory shows all the way down was written to the image. |
| SquashfsTree.TreeRoundTrip | src/extract/squashfs.c:946-1036 | An image written from a directory tree, with any block cuts, compression and inode kinds, lists as the tree; unless its block size is refused it extracts as the tree, and into an empty directory succeeds exactly when the tree can be written and leaves exactly the tree. All places are plain sums of a table's start and an offset. |
| SquashfsTree.ExtractedIsATree | src/extract/squashfs.c:946-1036 | The converse: an image that can be extracted was written from a tree, as which it is listed and extracted into anything. |
| CramfsReader.WordsRoundTrip | src/extract/cramfs.c:55-65 | Packing six fields into three words and unpacking them are inverse to each other. |
| CramfsReader.InodeCodec | src/extract/cramfs.c:55-65 | Twelve bytes decode to an inode exactly when they are its encoding, in either byte order. |
| CramfsReader.EntryCodec | src/extract/cramfs.c:280-322 | An entry parses from a region exactly when its bytes are there, provided the region has room for it. |
| CramfsReader.NameCodec | src/extract/cramfs.c:311-317 | Padding a name with NULs and trimming them are inverse to each other. |
| CramfsReader.DirRoundTrip | src/extract/cramfs.c:384-407 | Written entries are walked back in order, in either byte order. |
| CramfsReader.DirIsWritten | src/extract/cramfs.c:384-407 | The converse: a region parses only if it is, byte for byte, its written entries. |
| CramfsReader.TrimName | src/extract/cramfs.c:314-317 | The trimming loop removes exactly the NULs at the end. |
| CramfsReader.ReadEntry | src/extract/cramfs.c:280-317 | Reads one entry and moves the shared position and budget past it; their sum is conserved. |
| CramfsReader.ExtractRegularFile | src/extract/cramfs.c:212-274 | The loop over pointers produces the specified content, or fails where it does. |
| CramfsReader.FileHasItsSize | src/extract/cramfs.c:212-274 | An extracted file has exactly the declared size, and its pointer array lies in the image. |
| CramfsReader.BlocksTile | src/extract/cramfs.c:166-274 | Compressed spans are adjacent, never step back and stay below the declared image size; every block but the last has 4096 bytes, and each span decodes to its part of the file. |
| CramfsReader.WalkDirectory | src/extract/cramfs.c:384-407 | The recursive walk ends in the specified state, with its region check and depth cap. |
| CramfsReader.VisitEntry | src/extract/cramfs.c:280-372 | One entry: name check, path limit, listing, writing, and recursion into directories. |
| CramfsReader.WriteChild | src/extract/cramfs.c:348-366 | Extraction of one entry creates its directory or writes its content, and fails where the specification does. |
| CramfsReader.RunImage | src/extract/cramfs.c:431-457 | Extraction creates nothing before the superblock is accepted; the outcome is that of the walk from the root region. |
| CramfsReader.DirectoryStaysInItsRegion | src/extract/cramfs.c:384-407 | Every entry of a walked directory lies inside the directory's region and the declared image size, and fills the region exactly. |
| CramfsReader.WrittenDirectoryReadsBack | src/extract/cramfs.c:384-407 | Entries written to a region are what walking it shows, exactly when the region is inside the declared size. |
| CramfsReader.ListingAgreesWithExtraction | src/extract/cramfs.c:409-457 | If extraction succeeds, listing succeeds with the same entries. |
| CramfsReader.ExtractedTree | src/extract/cramfs.c:431-457 | From an empty tree, a path holds exactly what the last visit to it wrote, and only safe paths exist. |
| CramfsImage.SuperRoundTrip | src/extract/cramfs.c:74-108 | A written superblock reads back with its byte order, and is refused exactly when the declared size is too small. |
| CramfsImage.SuperIsWritten | src/extract/cramfs.c:74-108 | The converse: every image that is accepted begins with a superblock. |
| CramfsImage.BlockRoundTrip | src/extract/cramfs.c:187-210 | A hole or a compressed block reads back from its span. |
| CramfsImage.FileRoundTrip | src/extract/cramfs.c:212-274 | A file written block by block behind its pointer array reads back. |
| CramfsImage.FileIsHeld | src/extract/cramfs.c:212-274 | The converse: every file that can be rebuilt was written so. |
| CramfsTree.ShownDirIsHeld | src/extract/cramfs.c:384-407 | Whatever a directory shows all the way down was written to the image. |
| CramfsTree.TreeRoundTrip | src/extract/cramfs.c:409-457 | An image written from a directory tree, in either byte order and any layout, lists and extracts as the tree; its listing is the tree's; into an empty directory it succeeds exactly when the tree can be written, and leaves exactly the tree. Directories and files are told by their modes. |
| CramfsTree.ExtractedIsATree | src/extract/cramfs.c:409-457 | The converse: an image that can be extracted was written from a tree, as which it is listed and extracted into anything. |
| VersionOrder.ReadDigits | src/core/cve_match.c:34-43 | Reads the longest run of digits and the number it stands for, saturated beyond 18 digits. |
| VersionOrder.ReadSuffix | src/core/cve_match.c:44-53 | Reads up to seven letters, folded to lower case, and stops early only at a non-letter. |
| VersionOrder.ParseSegment | src/core/cve_match.c:23-58 | Consumes exactly up to the next separator and yields the segment of that piece, ignoring what follows the suffix. |
| VersionOrder.VersionCompare | src/core/cve_match.c:60-85 | The two-pointer loop is the comparison of the two segment lists, the shorter padded with zero segments, for all strings. |
| VersionOrder.SegmentsRoundTrip | src/core/cve_match.c:60-85 | A version written as pieces with dots and hyphens between them has one segment for each piece, except for an empty piece at the very end. |
| VersionOrder.VersionIsPieces | src/core/cve_match.c:54-82 | Every version is such pieces. |
| VersionOrder.SegmentIff | src/core/cve_match.c:23-58 | A piece's segment is exactly what it says: the number whose decimal digits come first, or the largest of 64 bits for more than 18 digits, and up to seven letters in lower case. |
| VersionOrder.OlderIff | src/core/cve_match.c:60-85 | Of two versions written so, the first is older exactly when at the first segment that differs its number is smaller, or its suffix comes first in a dictionary; what is missing counts as zero. |
| VersionOrder.PieceRoundTrip | src/core/cve_match.c:23-58 | Digits, then letters, then anything that continues neither, are read as that number and suffix. |
| VersionOrder.SuffixIsWholeIff | src/core/cve_match.c:44-53 | Digits and then letters are read as that number and those letters, but for case, exactly for at most seven letters. |
| VersionOrder.SuffixBreaksTiesIff | include/crimp/cve.h:27-31 | Behind equal numbers two suffixes order as their letters do exactly when they differ in the first seven or not at all. |
| VersionOrder.LongSuffixesTie | include/crimp/cve.h:27-31 | Two different suffixes of eight letters that compare equal. |
| VersionOrder.CompareIsAntisymmetric | src/core/cve_match.c:60-85 | Comparison is reflexive and flips its sign with its arguments. |
| VersionOrder.CompareIsTransitive | src/core/cve_match.c:60-85 | Comparison is transitive, so it is a total preorder on all strings. |
| VersionOrder.EquivalentVersions | src/core/cve_match.c:60-85 | Versions compare equal exactly when their segments agree up to zero segments at the end. |
| VersionOrder.NumberIsExact | src/core/cve_match.c:25-43 | The number never exceeds 64 bits and is the decimal value exactly for at most 18 digits, or when the value is itself the saturation value. |
| VersionOrder.LeadingZerosSaturate | src/core/cve_match.c:34-43 | A long way to write 1 sorts above 2. |
| VersionOrder.NumbersOrderByValueIff | src/core/cve_match.c:34-85 | Versions that are just numbers are ordered by value exactly when both have at most 18 digits, or one is longer and larger, or both are longer and equal. |
| VersionOrder.SpaceZeroesFirstSegment | src/core/cve_match.c:23-58 | Leading spaces turn the first segment into zero and leave the rest. |
| VersionOrder.SpaceIsHarmless | src/core/cve_match.c:23-85 | Leading spaces keep a version's place exactly when its first segment is zero anyway. |
| VersionOrder.SpaceSortsFirst | src/core/cve_match.c:23-85 | Leading spaces never move a version up. |
| VersionOrder.EmptyIsLeast | src/core/cve_match.c:60-85 | No version sorts below the empty one, and those that tie with it have only zero segments. |
| VersionOrder.OneMoreSegment | src/core/cve_match.c:60-85 | Appending one more segment sorts higher, so there is no greatest version. |
| AffectedRange.SkipSpaces | src/core/cve_match.c:149-151 | Skips exactly the spaces at the start of a condition. |
| AffectedRange.ReadToken | src/core/cve_match.c:158-171 | Copies a token up to its comma, and stops with the buffer full exactly when the token is too long. |
| AffectedRange.ReadCond | src/core/cve_match.c:149-179 | Reads one condition and moves behind it and its comma, or rejects it where the grammar does. |
| AffectedRange.VersionSatisfies | src/core/cve_match.c:137-182 | True exactly when the list is non-empty, wholly well formed and all its conditions hold, although the loop stops at the first failure. |
| AffectedRange.OpRoundTrip | src/core/cve_match.c:92-114 | A written operator is read back, longest first. |
| AffectedRange.CondRoundTrip | src/core/cve_match.c:149-179 | A written condition parses back. |
| AffectedRange.CondReads | src/core/cve_match.c:149-179 | A written condition is read whole, and rejected exactly when its token is longer than 63 characters. |
| AffectedRange.ListRoundTrip | src/core/cve_match.c:137-182 | Whatever the grammar writes, with or without a trailing comma, parses back to its conditions. |
| AffectedRange.ListIsWritten | src/core/cve_match.c:137-182 | The converse: whatever parses was written by the grammar, with tokens of 1 to 63 characters. |
| AffectedRange.SatisfiesIff | src/core/cve_match.c:137-182 | The evaluator accepts exactly the written lists of the grammar whose conditions all hold. |
| AffectedRange.SatisfiedTexts | src/core/cve_match.c:92-182 | In characters: a version satisfies exactly the texts that are one or more conditions it meets with commas between them, each of the five signs meaning the comparison it is written as. |
| AffectedRange.SatisfyingVersionsAreConvex | src/core/cve_match.c:117-182 | What lies between two satisfying versions satisfies the list too. |
| AffectedRange.EquivalentVersionsSatisfyTheSame | src/core/cve_match.c:117-182 | Versions that compare equal satisfy the same lists. |
| AffectedRange.EquivalentTokens | src/core/cve_match.c:117-130 | Bounds that compare equal make the same condition. |
| AffectedRange.SpaceIsHarmlessIff | src/core/cve_match.c:137-182 | Spaces after the operator change no version's answer exactly when the token still fits and the bound's first segment is zero, or it no longer fits and no version satisfied the condition; for every operator, bound and number of spaces. |
| AffectedRange.NoVersionSatisfiesIff | src/core/cve_match.c:117-130 | A condition rules out every version exactly when it is `<` with a bound of zero segments only. |
| AffectedRange.SpacedConditionMeansTheSameIff | src/core/cve_match.c:117-130 | Within the length limit, spaces leave a condition's meaning alone exactly when the bound's first segment is zero. |
| AffectedRange.HarmlessInEveryListIff | src/core/cve_match.c:137-182 | In a list of any length, spaces before a bound that fits behind them change no answer exactly when no version satisfying the other conditions lies between the bound with and without them. |
| AffectedRange.HarmlessInEveryList | src/core/cve_match.c:137-182 | In particular they change no answer before a bound that fits behind them and starts with zero. |
| AffectedRange.OverflowInEveryList | src/core/cve_match.c:158-171 | Where the bound no longer fits, the list is rejected, which changes no answer exactly when no version satisfied it. |
| AffectedRange.SpaceOverflowsTheToken | src/core/cve_match.c:158-171 | A list with a bound of 63 characters accepts that version, and with one space after the operator rejects it. |
| AffectedRange.SpaceAfterOperatorCounts | include/crimp/cve.h:24-31 | Version 1.0 satisfies `<=1.2` and does not satisfy `<= 1.2`. |
| DropbearScan.MemFind | src/core/binstring.c:5-18 | Finds the first occurrence, if there is one; an empty needle is never found. |
| DropbearScan.TokenMentionsDropbear | src/core/component_identify.c:104-106 | True exactly when the token contains the name in one of its two spellings. |
| DropbearScan.LooksLikeDropbearVersion | src/core/component_identify.c:78-96 | True exactly for four digits, a dot and one to three digits. |
| DropbearScan.MentionsIff | src/core/component_identify.c:104-106 | The name is found exactly where `ropbear` stands behind a `d` or `D`. |
| DropbearScan.VersionShapedIff | src/core/component_identify.c:78-96 | A token is version-shaped exactly if it is a four-digit year, a dot and a number of one to three digits. |
| DropbearScan.TokensRoundTrip | src/core/component_identify.c:127-166 | The tokens hold no NUL and join to the buffer. |
| DropbearScan.TokensUnique | src/core/component_identify.c:127-166 | There is no other way to cut the buffer at its NULs. |
| DropbearScan.FindIsolatedDropbearVersion | src/core/component_identify.c:127-166 | Succeeds exactly when some version-shaped token that fits the caller's buffer has a neighbour on either side mentioning Dropbear, and returns the leftmost such token, in one pass. |
| DropbearScan.QualifiesIff | src/core/component_identify.c:127-166 | What qualifies, in these terms: a year and number that fits with its NUL, next to a token with the name. |
| Json.EscapedParses | src/core/sbom.c:3-31 | An escaped string, whatever its bytes, parses back to the string. |
| Json.RenderParses | src/core/sbom.c:33-67 | Any laid-out value parses back, whatever its white space and whatever follows. |
| Json.TextParses | src/core/sbom.c:33-67 | A laid-out value and trailing white space are one whole JSON text. |
| SbomText.DocumentIsPrinted | src/core/sbom.c:33-67 | The printed literals, commas and line breaks are, byte for byte, the layout of one JSON document. |
| Sbom.WriteEscaped | src/core/sbom.c:3-31 | One byte is appended in its escaped form. |
| Sbom.WriteJsonString | src/core/sbom.c:3-31 | A C string is appended as a JSON string, up to its NUL. |
| Sbom.WriteVersion | src/core/sbom.c:33-67 | The version member is written exactly for a non-empty version. |
| Sbom.WriteEvidence | src/core/sbom.c:33-67 | The path is written as the component's one occurrence. |
| Sbom.WriteComponent | src/core/sbom.c:33-67 | One component is appended, with a comma exactly when it is not the last. |
| Sbom.WriteCycloneDx | src/core/sbom.c:33-67 | The stream receives exactly the document's text, for every component list. |
| SbomReader.SbomRoundTrip | src/core/sbom.c:33-67 | For every component list the text is JSON and reads back as the same names, versions and paths in order, as C strings. |
| SbomReader.SbomIsFaithful | src/core/sbom.c:33-67 | Components without NULs read back exactly, empty versions included, so different lists never print alike. |
| RemoveTree.FileSystem.Delete | src/extract/identify.c:66-93 | A file or empty directory goes if that is permitted, and nothing else changes. |
| RemoveTree.FileSystem.Rename | src/extract/identify.c:139 | Moves the temporary tree to the output exactly when the output path is free or an empty directory, and changes nothing otherwise. |
| RemoveTree.FileSystem.RemoveNode | src/extract/identify.c:66-93 | The recursion ends in the specified tree whatever order directories are read in; every step on the way only takes something away, and leaves no entry without its directory. |
| RemoveTree.RemovedIsEmptyIff | src/extract/identify.c:66-93 | Removal leaves nothing exactly when every entry may be removed, every directory read and every path, with its NUL, fits 1280 bytes. |
| RemoveTree.RemovedStaysRooted | src/extract/identify.c:66-93 | A partial removal leaves no entry without its directory. |
| RemoveTree.AfterAllChildren | src/extract/identify.c:66-93 | Once all children are dealt with, the directory itself goes exactly when it is empty and may be removed. |
| RemoveTree.ReplaceableIff | src/extract/identify.c:66-93 | What removal leaves can be renamed onto exactly when the path was free, or a removable file, or a directory whose entries, if any, can all be listed and removed. |
| RemoveTree.UntouchedIff | src/extract/identify.c:66-93 | Removal leaves everything as it was exactly when it reaches no removable entry that has nothing below it. |
| ReplaceProtocol.AtMostOneReaderAccepts | src/extract/identify.c:95-111 | The magics exclude one another: no image is accepted by two readers. |
| ReplaceProtocol.PathsOfACall | src/extract/identify.c:124-139 | A call works on the output path and on that path with `.tmp` behind it, each with its own rights. |
| ReplaceProtocol.RemovePath | src/extract/identify.c:66-93 | Cleaning up one path leaves the other alone at every step. |
| ReplaceProtocol.TrySquashfs | src/extract/identify.c:95-111 | Writes the temporary tree only for images the SquashFS reader accepts; success means its extraction succeeded. |
| ReplaceProtocol.TryCramfs | src/extract/identify.c:95-111 | The same for the cramfs reader. |
| ReplaceProtocol.TryJffs2 | src/extract/identify.c:95-111 | The same for the JFFS2 reader, for some sort of its records. |
| ReplaceProtocol.ExtractDispatch | src/extract/identify.c:95-111 | At most one reader writes the temporary tree; failure means that none extracts the image. |
| ReplaceProtocol.StageTemp | src/extract/identify.c:131-136 | Clean-up, extraction and clean-up on failure never touch the output. |
| ReplaceProtocol.ReplaceOutput | src/extract/identify.c:138-139 | Replaces the output by the temporary tree, or leaves what the removal left of it; every step shows part of the old tree or all of the new one. |
| ReplaceProtocol.FsExtract | src/extract/identify.c:124-140 | The whole call: each outcome with its exact state; every step leaves both paths fit to start another call, and shows part of the old output, or all of a new tree that a reader made of this image. |
| ReplaceProtocol.NeverAMix | src/extract/identify.c:113-140 | Over any run of calls, each starting from any state the call before passed through, the output is at every step part of one tree: the first output, or one that a single call extracted. |
| ReplaceProtocol.NeverAMixOfImages | src/extract/identify.c:113-140 | If every clean-up can remove what it finds, the output is at every step part of the first output, or of what one image gives by itself. |
| ReplaceProtocol.RunsGoOn | src/extract/identify.c:113-140 | Wherever a run is cut short, the state meets what a call requires, and whatever that call does continues the run. |
| ReplaceProtocol.MomentsOfExtraction | src/extract/identify.c:131-136 | Any tree half written at the temporary path may stand among the steps of a call, so a run may be cut short there too. |
| ReplaceProtocol.PromiseKeptIff | src/extract/identify.c:113-123 | The output is untouched, or replaced in a successful call, exactly when nothing was extracted, or the rename is permitted and all in its way can go, or nothing there can go. |
| ReplaceProtocol.NothingExtractedIff | src/extract/identify.c:124-136 | Whether a call gets as far as a new tree is decided before it: exactly if the path is not too long and some reader can extract the image onto the cleaned path, versions being distinct in a JFFS2 image. |
| ReplaceProtocol.PromiseSeenBeforehandIff | src/extract/identify.c:113-123 | So is whether the promise is kept: the path is too long, or no reader can extract the image, or the rename is permitted and all in its way can go, or nothing there can go. |
| ReplaceProtocol.CleanTempGivesTheImage | src/extract/identify.c:124-136 | If everything at the temporary path can be removed, the new tree is what the image alone extracts to. |
| ReplaceExamples.LeftoversArePublished | src/extract/identify.c:131-139 | A call whose clean-up cannot remove one file at the temporary path: it succeeds, and that file is at the output although the image is empty. |
| ReplaceExamples.LeftoverDirectoryBlocksFile | src/extract/identify.c:131-136 | A call whose clean-up leaves a directory where the image has a file: it fails, while the same call on a clean path succeeds. |
| ReplaceExamples.CallEnds | src/extract/identify.c:95-140 | For every call on a cramfs image written from a tree, exactly how it ends, for every output, temporary path and host. |
| StaleFiles.ProductIsWritten | src/extract/identify.c:95-136 | The trees a call can extract are exactly the walks of its image by an accepting reader, written over what the clean-up left. |
| StaleFiles.NoStaleFilesIff | src/extract/identify.c:129-136 | For the new tree of a call and any walk that wrote it: nothing in it is stale exactly when the walk wrote over every path the clean-up had left; and it is what the walk gives on a clean path exactly when the walk succeeds there and wrote over all leftovers by their own kind. |
| StaleFiles.LeftoversAreHarmlessIff | src/extract/identify.c:129-136 | For any walk of an image: leftovers make no difference to what it writes, or to whether it succeeds, exactly when a clean path succeeds and all leftovers are written over by their own kind, or a clean path fails and the leftovers do not help. |
| ReplaceExamples.RenameFailureLosesOutput | src/extract/identify.c:138-139 | A call whose rename fails: it ends with nothing at the output, where a file was, and the new tree at the temporary path. |
| ReplaceExamples.StubbornFileLosesOthers | src/extract/identify.c:138-139 | A call on an output with a file that cannot be removed: it fails, that file is still there and the other one is lost. |

## Left out

- zlib and liblzma: any function from packed bytes and a limit to an optional result; a longer result than the limit counts as a failure.
- `FILE*` handles, seeking, `stat` and short reads: an image is one immutable byte sequence, shorter than 2^63 bytes, and reading bytes past its end fails.
- SquashfsFile.ExtractRegularFile: the running `block_offset` is added without a 64-bit limit; before it could wrap, a read past the end of the image has failed.
- Jffs2View.Qsort: the in-place sort of the record arrays is modelled on sequences, as any sorted permutation; how the C library sorts is not.
- Walk.WalkContext.AddEntry: the doubling array behind an entry list, and running out of memory, are not modelled; lists are sequences.
- Walk.WalkContext.WriteFileAt: a file appears in one step with its whole content, after it could be read; truncating, writing and deleting a partial file are not separate steps, and what a failed walk leaves in the tree is unspecified.
- Symbolic links, Windows branches and file permissions: an arbitrary predicate says what the host allows; it stays the same during one call.
- ReplaceProtocol.ExtractDispatch: an extraction into the temporary path is one recorded step, because it never touches the output; moments within it are covered by `ReplaceProtocol.MomentsOfExtraction`.
- RemoveTree.FileSystem.Rename: renaming onto a path that is free or an empty directory, as POSIX has it; other programs changing the same paths are not modelled.
- RemoveTree.FileSystem.RemoveNode: a directory is read once and its entries come in any order; entries appearing during the removal are not modelled.
- Jffs2Reader.ReadingIsDeterministic: needs distinct versions within each name and each inode; with equal versions the reader may pick either record, which `Jffs2View.DirectoryView` and `Jffs2Replay.LatestWriteWins` allow for.
- Jffs2Tree.TreeRoundTrip: a tree's entries are in name order, as the reader lists them; like its counterparts for SquashFS and cramfs it says which images are written from a tree, and builds none.
- Checksums, owners, times, link targets and device numbers: the readers ignore them, and the writers of this model put arbitrary bytes there.
- `crimp_fs_identify`, compression names and the per-format identification functions: they read a few header fields.
- Loading the vulnerability and rule files (`src/core/yaml_util.c`, `src/core/yaml_rules.c`, `match_*_entry`): the YAML library is not part of this model, and the rest is plumbing.
- AffectedRange.VersionSatisfies: versions are sequences of characters without NUL, and letters and digits are the ASCII ones, as in the C locale.
- Pattern detectors, the detector registry, directory scanning, the marker search and `extract_version` of `src/core/component_identify.c`, the command line and the scripts: they would only add simple members.
- Json.TextParses: the reader covers strings, numbers written as digits without leading zeros, arrays and objects, which is what the printer uses; surrogate escapes are not combined, and bytes of 0x80 and above pass through.
