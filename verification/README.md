# Verified models of the K210 ucore port

This project models the algorithms of the lab8 tree of the K210 port of ucore and proves what they are for.
`dafny verify dfyconfig.toml` checks everything.

| files | what they model |
|---|---|
| `Common` | bytes, options and sequence helpers that the other files share |
| `SfsCore`, `SfsIndex`, `SfsInvariant`, `SfsSteps`, `SfsEntry`, `SfsHost`, `SfsLinks`, `SfsBuilder`, `SfsFormat`, `SfsClose`, `SfsImage`, `SfsLayout` | `lab8/tools/mksfs.c`, the builder of SFS disk images |
| `Qsort` | `lab8/libs/qsort.c`, the Bentley-McIlroy quicksort |
| `SkewHeap`, `SkewHeapPointers` | `lab8/libs/skew_heap.h`, the skew heap with parent pointers |
| `AesSpec`, `AesTables`, `Aes`, `StandardAes`, `Fips197`, `Cbc` | the AES and CBC classes of `lab8/tools/kflash.py` |
| `FirmwareInFlash` | the encrypting branch of `flash_firmware` in `lab8/tools/kflash.py`, from the firmware to flash and back |
| `Slip`, `Flash` | SLIP framing and the flash layout of `lab8/tools/kflash.py` |
| `Printf`, `PrintfBuffer`, `FormatLaws`, `Strtol` | `lab8/libs/printfmt.c` and the number parser of `lab8/libs/string.c` |
| `Shell` | the tokenizer of `lab8/user/sh.c` |
| `Cnn` | the layer feeder of `lab8/kern/driver/cnn.c` |

## The main results

**SFS images.** `SfsImage.MakeImage` is the whole program: `create_sfs`, the walk over the host directory, `close_sfs`.
It succeeds exactly when the directory keeps to the limits of the format and its blocks, counted independently by
`SfsHost.EntryBlocks` and `SfsHost.Span`, fit into the image; none of the modelled assertions can fail. On success an independent
reader, which starts at block 1 and follows entries and direct, indirect and double-indirect pointers, finds the visible
objects in order with their bytes, sizes and link texts, and two paths share an inode exactly when they share a host inode
number. The link count of every inode is the number of visible entries that lead to a file, 2 plus the number of
subdirectories for a directory and 1 for a link, modulo 65536 (`SfsImage.RootLinks`). The superblock and the free map count
as free exactly the blocks from `next_ino` on. Names longer than 252 bytes lose their end, because `add_entry` writes
`sizeof(entry->name)` bytes of a structure that is four bytes longer: all names of an image come back exactly when every
visible one has at most 252 bytes (`SfsImage.NamesExactly`), and two names collide exactly when they agree in their first
252 bytes and both are that long (`SfsImage.NamesCollide`).
An image file of less than 2^44 bytes gives as many blocks of 4096 bytes as fit into it, at most 524288, and block 0 carries
this number. `SfsLayout` says where every field of the format lies, byte by byte, and states limits and costs in numbers.
The invariant behind it (`SfsInvariant.Inv`) says that every allocated block has one purpose and that the cached l1 and l2
blocks are the ones of the last append. So a slot that is not zero always holds the number of the cached block at every call
of `update_cache`, and its search arm is dead (`SfsInvariant.SearchArmUnreachable`, a requirement of
`SfsBuilder.Sfs.UpdateCache`). That matters because `alloc_cache_block` files every block in the bucket of number 0, where a
search finds only the blocks whose number hashes like 0 (`SfsInvariant.SearchFindsOnlyBucketZero`).

**Quicksort.** For every length and every total preorder `Qsort.Sort` terminates with the range sorted, a permutation of what
it was, and everything outside unchanged.

**Skew heap.** On mutable nodes, over every run of inserts and removals and for every comparator, the links form a tree with
correct parent links that holds exactly the live nodes (`SkewHeapPointers.RunAll`, `SkewHeap.RunNodes`), and a run of m
operations on at most N nodes makes at most 5 m log2(N + 1) comparing calls (`SkewHeap.RunAmortised`). Every run over a set of
nodes keeps heap order if and only if "not -1 the other way round" is an order on these nodes (`SkewHeap.HeapOrderExactly`).
For a comparator that orders by sign, as those of `qsort` do, every run has a least node on top if and only if its only
negative result is -1 (`SkewHeap.MinusOneExactly`).

**AES and CBC.** The table rounds are the rounds of FIPS 197, the decryption schedule is the one of its section 5.3.5, and
decryption undoes encryption for all three key lengths; the laws of the field that this needs are proved of the
S-box and of multiplication by x, not assumed. With the tables of the source, encrypting a firmware and decrypting the image
with a second object gives the firmware followed by zeros (`StandardAes.FirmwareComesBack`), and so does decrypting the field that
a loader finds in flash after `flash_firmware` (`FirmwareInFlash.FlashEncrypted`, `FirmwareInFlash.FlashedComesBack`).

`Fips197` states the standard in its own terms, at the same tables: the S-box is the inverse in the field followed by the affine
transformation (`Fips197.SBoxIs`), the layers are given byte by byte, mixing multiplies by the matrices of the standard, the
rounds are a sequence of states, and the expanded key is given word by word. So the ciphertext, and not only the round trip,
is determined; with `Cbc.ChainAt` so is every block in flash.

**SLIP.** A stream is accepted exactly when it is the frames of the packets it yields (`Slip.AcceptedExactly`), and is refused
exactly when it is no beginning of a sequence of frames (`Slip.RefusedExactly`), whatever the sizes of the reads (`Slip.ReadBack`).

**Formatter and parser.** `FormatLaws` says what every escape means, for all flags, widths, precisions and arguments, at every
position of a format, and which arguments are left for the rest: `%u`, `%o` and `%x` print what `strtol` reads in base 10, 8 and 16
as the argument modulo 2^32 or 2^64, `%d` and `%p` the signed value and the pointer, read back under exact conditions, and `%c`, `%s`,
`%e` and `%%` are given character by character. `Strtol.ParseIs` gives the grammar that `strtol` accepts by positions and its value as
a sum of digits times powers of the base.

**Tokenizer.** `Shell.WordAt` says where a word ends by counting quotes: every blank or symbol in it stands behind an odd number
of them, and the one that ends it behind an even number. A line has exactly one sequence of such tokens
(`Shell.TokenizationUnique`), and it is the one that the calls return and that decides what is left in the buffer.

**Layer feeder.** The FIFO holds the twelve fields of every layer by name and place, and the mark on the last layer is stated bit by
bit (`Cnn.Feed`).

**Flash layout.** Which bytes every chunk holds is stated by the address alone (`Flash.ChunkSizes`), and the header byte by byte
(`Flash.HeaderReads`).

## Modelling decisions

- A pointer to a cached inode or index block is its block number; hash chains are sequences of numbers. `bug()` ends a call
  with a reason. The assertions of `write_block`, `append_block`,
  `update_cache`, `add_entry`, `add_dir` and `open_file` are preconditions that every caller meets, or proved assertions.
- The host directory is a finite tree with host inode numbers. What the host guarantees is a requirement: equal numbers mean the
  same object, no directory is met twice, number 0 is not used, names hold no NUL byte.
- Integers are unbounded except where the width shows: the 16-bit link count, the 32-bit words on disk and in hashing,
  the 32- and 64-bit arguments of the formatter, the 64-bit value of `strtol`, the 32-bit `dst_length`.
- The 32-bit words of the AES tables are columns of four bytes. T1 to T8 and U1 to U4 are given by their defining
  equations; S, Si and rcon are transcribed.
- A comparator of the skew heap compares keys, which no operation changes; what it must satisfy is asked only of the nodes that
  a run mentions (`SkewHeap.OrderOn`).
- An element of the quicksort is an array slot, so that byte-wise and word-wise swapping are the same.
- The unused end of the superblock's info field is uninitialised memory in the source and an arbitrary parameter here.
- Where documentation and code of the source disagree the code is followed: `%-5d` pads with '-' characters on the left,
  a sign is printed before the padding, and `%*` arguments of an unrecognised escape are consumed.

## Model

| member | source | states |
|---|---|---|
| `SfsImage.MakeImage` | lab8/tools/mksfs.c:544-559 | the number of blocks is the length over 4096, rounded down and at most 524288 (of a length of 2^44 or more only the rest modulo 2^44 counts); the program succeeds iff that is enough for superblock, root and free map and the directory fits, fails only for a named reason, and the image reads back as the directory, link counts included, with exact free-space accounts and that number in block 0 |
| `SfsImage.BlocksOfLength` | lab8/tools/mksfs.c:227-231 | the number of blocks of an image file: 4096 bytes each, as many as fit, at most 524288, cut to 32 bits |
| `SfsImage.CountOnDisk` | lab8/tools/mksfs.c:238-240 | block 0 of an image begins with the bytes of the magic number and the number of blocks |
| `SfsImage.BuildImage` | lab8/tools/mksfs.c:544-559 | the same for an image of a given number of blocks |
| `SfsImage.RootReadsBack` | lab8/tools/mksfs.c:466-514 | a closed image has one injective numbering of host objects under which reading from block 1 gives the directory, at every sufficient depth |
| `SfsImage.NodeReadsBack` | lab8/tools/mksfs.c:439-542 | the reader finds the object that an inode stands for, with its link count |
| `SfsImage.EntriesReadBack` | lab8/tools/mksfs.c:466-514 | the reader finds the visible entries of a directory in order |
| `SfsImage.RootLinks` | lab8/tools/mksfs.c:428-437 | on the image the link count of a file is the number of visible entries that lead to it, of a directory 2 plus its subdirectories, of a link 1, modulo 65536 |
| `SfsImage.FillRoot` | lab8/tools/mksfs.c:544-559 | the walk from the root on a fresh image passes iff the directory fits and then represents it, with all link counts |
| `SfsImage.NamesExactly` | lab8/tools/mksfs.c:428-437 | every name of the directory comes back whole iff every visible name has at most 252 bytes |
| `SfsImage.NamesCollide` | lab8/tools/mksfs.c:434-434 | two names are stored alike iff they are equal or both have at least 252 bytes and agree in the first 252 |
| `SfsImage.NumberingExists` | lab8/tools/mksfs.c:449-457 | files and directories have one inode per host object, so hard links are shared and nothing else is |
| `SfsImage.ContentOf` | lab8/tools/mksfs.c:337-348 | reading an inode of the image gives the kind, size and blocks that were appended to it |
| `SfsImage.PointerOf` | lab8/tools/mksfs.c:397-426 | following pointers on the image is the lookup in the cached index |
| `SfsImage.FreeMapExact` | lab8/tools/mksfs.c:312-334 | bit b of the free map is set iff next_ino <= b < ninos, for every bit of every map block |
| `SfsImage.FreeCountExact` | lab8/tools/mksfs.c:312-334 | the number of set bits is ninos - next_ino |
| `SfsImage.AccountsRight` | lab8/tools/mksfs.c:312-335 | superblock and free map agree with the allocator |
| `SfsClose.CloseSfs` | lab8/tools/mksfs.c:312-349 | every block of the image holds what its one purpose demands, and all of them are written |
| `SfsClose.WriteFreeMap` | lab8/tools/mksfs.c:317-334 | the map blocks are written and overwrite nothing else |
| `SfsClose.FlushCaches` | lab8/tools/mksfs.c:337-348 | going through all buckets writes every cached index block and inode |
| `SfsClose.FlushBlocks` | lab8/tools/mksfs.c:338-342 | one chain of index blocks is written |
| `SfsClose.FlushInodes` | lab8/tools/mksfs.c:343-347 | one chain of inodes is written |
| `SfsClose.MapRight` | lab8/tools/mksfs.c:317-334 | after writing a map block it holds the bits of its range, and its number is owned by no inode, index block or data block |
| `SfsFormat.FreeMapWords` | lab8/tools/mksfs.c:327-331 | the bit loop sets exactly the bits from start to end |
| `SfsFormat.SetBitSets` | lab8/tools/mksfs.c:330-330 | or-ing a bit sets that bit and no other |
| `SfsFormat.InodeReadsBack` | lab8/tools/mksfs.c:134-142 | the on-disk inode decodes to the inode |
| `SfsFormat.WordsReadBack` | lab8/tools/mksfs.c:302-305 | a flushed index block decodes word by word |
| `SfsFormat.SuperReadsBack` | lab8/tools/mksfs.c:238-240 | the superblock decodes to magic, block count, free count and name, whatever follows the name |
| `SfsEntry.EntryReads` | lab8/tools/mksfs.c:428-437 | an entry block decodes to the inode number and the first 252 bytes of the name, whatever the static buffer held |
| `SfsEntry.Stored` | lab8/tools/mksfs.c:434-434 | a name survives whole iff it has at most 252 bytes |
| `SfsEntry.ChunksReadBack` | lab8/tools/mksfs.c:516-530 | the blocks of a file, cut at its size, are its bytes |
| `SfsLayout.SuperLayout` | lab8/tools/mksfs.c:238-240 | the fields of the superblock by their places: magic 0x2f8dbe2a, number of blocks, free blocks |
| `SfsLayout.InodeLayout` | lab8/tools/mksfs.c:134-142 | the fields of an inode by their places |
| `SfsLayout.EntryLayout` | lab8/tools/mksfs.c:428-437 | the fields of an entry by their places: the inode number and a C string of at most 256 bytes |
| `SfsLayout.KindOnDisk` | lab8/tools/mksfs.c:60-62 | the type field is 1 for files, 2 for directories, 3 for links |
| `SfsLayout.PointerLayout` | lab8/tools/mksfs.c:397-426 | block i is found by direct pointer i below 12, by word i - 12 of the indirect block below 1036, and else by quotient and remainder of i - 1036 by 1024 |
| `SfsLayout.FreeMapLayout` | lab8/tools/mksfs.c:312-334 | block b is free iff bit b % 8 of byte b % 32768 / 8 of block 2 + b / 32768 is set |
| `SfsLayout.LimitsAre` | lab8/tools/mksfs.c:467-530 | a file has at most 134217728 bytes, a link text 4095, a directory 32766 entries |
| `SfsLayout.FitsExactly` | lab8/tools/mksfs.c:475-512 | a directory fits iff every entry is hidden or has a name of at most 255 bytes and an object that fits |
| `SfsLayout.FileCost` | lab8/tools/mksfs.c:376-426 | the blocks that a new file takes, as a number of its length |
| `SfsLayout.NamesOnImage` | lab8/tools/mksfs.c:475-512 | the names on the image are those that do not begin with a dot, in order, cut to 252 bytes |
| `SfsBuilder.Sfs.constructor` | lab8/tools/mksfs.c:223-254 | a new image satisfies the invariant and holds the empty root |
| `SfsBuilder.Sfs.AllocIno` | lab8/tools/mksfs.c:173-180 | the next number, or out of space exactly when none is left |
| `SfsBuilder.Sfs.AllocCacheBlock` | lab8/tools/mksfs.c:182-190 | a zeroed block under a fresh number in the bucket of the argument |
| `SfsBuilder.Sfs.SearchCacheBlock` | lab8/tools/mksfs.c:192-199 | the chain walk finds exactly what the bucket holds |
| `SfsBuilder.Sfs.AllocCacheInode` | lab8/tools/mksfs.c:201-212 | an empty inode at the head of the bucket of its host number |
| `SfsBuilder.Sfs.NewInode` | lab8/tools/mksfs.c:201-212 | a fresh inode keeps the invariant and adds one empty file |
| `SfsBuilder.Sfs.SearchCacheInode` | lab8/tools/mksfs.c:214-221 | a host inode number is found iff some inode was made for it |
| `SfsBuilder.Sfs.UpdateBoth` | lab8/tools/mksfs.c:417-419 | the double-indirect block, then the block in its slot; callers must show that neither call searches |
| `SfsBuilder.Sfs.UpdateCache` | lab8/tools/mksfs.c:382-395 | allocates for an empty slot and keeps the cached block otherwise; callers must show that the slot is zero or holds the cached number, and the search arm is proved dead |
| `SfsBuilder.Sfs.AppendBlock` | lab8/tools/mksfs.c:397-426 | the index update for direct, indirect and double-indirect blocks |
| `SfsBuilder.Sfs.AppendData` | lab8/tools/mksfs.c:397-426 | appending keeps the invariant and adds one block to one file; it fails iff the file or the disk is full |
| `SfsBuilder.Sfs.WriteBlock` | lab8/tools/mksfs.c:287-300 | the padded bytes are on the disk at that number |
| `SfsBuilder.Sfs.AddBlock` | lab8/tools/mksfs.c:522-524 | allocate, write, append: exact cost, exact failure condition, invariant |
| `SfsBuilder.Sfs.AddEntry` | lab8/tools/mksfs.c:428-437 | the directory gains one block that decodes to number and name |
| `SfsBuilder.Sfs.CountLink` | lab8/tools/mksfs.c:436-436 | one more entry is counted for one inode, and the invariant with its 16-bit count is kept |
| `SfsBuilder.Sfs.AddNext` | lab8/tools/mksfs.c:518-526 | one turn of the loop: the next chunk is added, and it is a whole block unless it is the last |
| `SfsBuilder.Sfs.OpenFile` | lab8/tools/mksfs.c:516-530 | the file gains all its bytes in order; fails iff it or the disk is full; every chunk but the last is a whole block, as the assertion in the loop demands |
| `SfsBuilder.Sfs.OpenLink` | lab8/tools/mksfs.c:532-542 | the link gains its text; texts of 4096 bytes or more are refused |
| `SfsBuilder.Sfs.AddFile` | lab8/tools/mksfs.c:449-457 | a file seen before is shared, another gets its own inode and bytes |
| `SfsBuilder.Sfs.AddLink` | lab8/tools/mksfs.c:459-464 | every link entry gets an inode of its own |
| `SfsBuilder.Sfs.AddDir` | lab8/tools/mksfs.c:439-447 | the assertion that the directory is new holds; the finished directory stands for the host directory |
| `SfsBuilder.Sfs.OpenDir` | lab8/tools/mksfs.c:466-514 | "." and "..", then the visible entries, with exact cost and failure condition |
| `SfsBuilder.Sfs.Walk` | lab8/tools/mksfs.c:475-512 | hidden names are skipped, long names refused, all others entered in order |
| `SfsBuilder.Sfs.EnterOne` | lab8/tools/mksfs.c:476-511 | the body of the loop for one entry |
| `SfsBuilder.Sfs.AddNode` | lab8/tools/mksfs.c:486-511 | links, directories and files go to their functions, anything else is skipped |
| `SfsBuilder.EntriesTwice` | lab8/tools/mksfs.c:475-512 | the entries of two parts of a directory add up: representation, cost and failure |
| `SfsHost.SpanIsClosed` | lab8/tools/mksfs.c:376-380 | a file with n blocks takes n blocks, one indirect block behind 12, and one double-indirect block with its children behind 1036 |
| `SfsHost.RepNodeStays` | lab8/tools/mksfs.c:439-464 | what an inode stands for is not changed by later steps of the walk |
| `SfsHost.StillUnvisited` | lab8/tools/mksfs.c:440-442 | directories to come stay unvisited |
| `SfsInvariant.AppendIndex` | lab8/tools/mksfs.c:382-426 | every append: lookup gains the block at its end, no other file changes, no call of update_cache searches, failure only for size or space |
| `SfsInvariant.SearchArmUnreachable` | lab8/tools/mksfs.c:382-426 | under the invariant a slot that is not zero holds the number of the cached block, at the one call for indirect and at both calls for double-indirect blocks |
| `SfsInvariant.SearchFindsOnlyBucketZero` | lab8/tools/mksfs.c:182-199 | a cached index block is found by a search iff its number hashes like 0 |
| `SfsInvariant.AppendNewDoubleOk` | lab8/tools/mksfs.c:415-422 | the first block behind the indirect ones takes two index blocks |
| `SfsInvariant.AppendNextDoubleOk` | lab8/tools/mksfs.c:415-422 | every 1024th block behind takes one more |
| `SfsInvariant.AppendSameDoubleOk` | lab8/tools/mksfs.c:415-422 | in between both cached blocks are the right ones |
| `SfsInvariant.AppendIndirectOk` | lab8/tools/mksfs.c:409-414 | the cached indirect block is the right one |
| `SfsIndex.OtherFile` | lab8/tools/mksfs.c:397-426 | an append to one file keeps the index of every other |
| `SfsIndex.DoubleStep` | lab8/tools/mksfs.c:415-422 | an append behind the indirect block extends the sequence of block numbers |
| `SfsSteps.AppendKeeps` | lab8/tools/mksfs.c:397-426 | the whole invariant is kept: accounting, one purpose per block, indexes, views, chains |
| `SfsSteps.WriteKeeps` | lab8/tools/mksfs.c:173-180 | so does allocating and writing a block |
| `SfsSteps.AllocInodeKeeps` | lab8/tools/mksfs.c:201-212 | so does a new inode |
| `SfsSteps.LinkCountKeeps` | lab8/tools/mksfs.c:436-436 | so does the 16-bit link count |
| `SfsLinks.LinksTwice` | lab8/tools/mksfs.c:475-512 | the entries that two parts of a directory contribute to the count of every inode add up |
| `SfsLinks.SharedLinks` | lab8/tools/mksfs.c:449-457 | an entry for a file seen before counts once for its inode and for no other |
| `SfsLinks.NewLinks` | lab8/tools/mksfs.c:449-464 | a new file or link has one entry and changes no other count |
| `SfsLinks.DirLinked` | lab8/tools/mksfs.c:439-447 | a new directory ends with 2 plus its subdirectories and adds one to its parent |
| `Qsort.Sort` | lab8/libs/qsort.c:74-152 | the range is sorted, rearranged and everything outside is unchanged, for every length and total preorder |
| `Qsort.Pass` | lab8/libs/qsort.c:90-142 | one pass sorts the range by insertion or leaves less, equal, greater with a non-empty middle |
| `Qsort.Partition` | lab8/libs/qsort.c:103-129 | the loop ends with equal, less, greater, equal |
| `Qsort.ScanUp` | lab8/libs/qsort.c:107-114 | the first inner loop keeps the five regions |
| `Qsort.ScanDown` | lab8/libs/qsort.c:115-122 | the second inner loop keeps the five regions |
| `Qsort.GatherEqual` | lab8/libs/qsort.c:138-142 | the two vector swaps do not overlap and bring the equal elements to the middle |
| `Qsort.VecSwap` | lab8/libs/qsort.c:35-65 | two blocks are exchanged element by element |
| `Qsort.Swap` | lab8/libs/qsort.c:57-63 | two elements are exchanged |
| `Qsort.Med3` | lab8/libs/qsort.c:67-72 | the median of three |
| `Qsort.ChoosePivot` | lab8/libs/qsort.c:90-101 | the middle, the median of three or the pseudo-median of nine, by length; all samples are in range |
| `Qsort.PseudoMedian` | lab8/libs/qsort.c:94-100 | the median of the medians of three samples each at both ends and in the middle |
| `Qsort.InsertionSort` | lab8/libs/qsort.c:83-89 | sorts and rearranges |
| `Qsort.Divide` | lab8/libs/qsort.c:143-150 | the recursive part and the part that loops are strictly smaller |
| `Qsort.RearrangedRange` | lab8/libs/qsort.c:74-152 | a rearranged range has the same elements with multiplicity |
| `SkewHeap.MergeNodes` | lab8/libs/skew_heap.h:29-59 | a merge holds exactly the nodes of both heaps, once each |
| `SkewHeap.MergeOrdered` | lab8/libs/skew_heap.h:29-59 | a merge of heaps is a heap, when the comparator orders the nodes of both |
| `SkewHeap.RemoveNodes` | lab8/libs/skew_heap.h:69-85 | a removal takes out exactly the node |
| `SkewHeap.RemoveOrdered` | lab8/libs/skew_heap.h:69-85 | and leaves a heap |
| `SkewHeap.RootIsLeast` | lab8/libs/skew_heap.h:29-59 | the root of a heap is a minimum |
| `SkewHeap.MergeSteps` | lab8/libs/skew_heap.h:29-59 | a merge is a sequence of comparing calls: in each the heap whose root the comparator prefers keeps its root, its left child becomes the right one, and the next call gives the left one; the last call gives the heap that is left |
| `SkewHeap.InsertTop` | lab8/libs/skew_heap.h:61-67 | the top stays iff its key compares -1 with the new one |
| `SkewHeap.RemoveTop` | lab8/libs/skew_heap.h:69-85 | the left child of a removed top takes its place iff its key compares -1 with the right one |
| `SkewHeap.RemoveBelow` | lab8/libs/skew_heap.h:76-82 | removing another node keeps the top and the child that does not hold the node |
| `SkewHeap.DifferenceComparatorFails` | lab8/libs/skew_heap.h:37-37 | with a comparator that returns differences some legal run over any two keys more than 1 apart has a greater key on top of a smaller one |
| `SkewHeap.MinusOneExactly` | lab8/libs/skew_heap.h:37-37 | for a total preorder by sign: every legal run over a set of nodes has a least node on top iff no two of them compare negative other than -1 |
| `SkewHeap.HeapOrderExactly` | lab8/libs/skew_heap.h:29-85 | every legal run over a set of nodes is heap ordered iff the comparator orders these nodes |
| `SkewHeap.DisorderedRun` | lab8/libs/skew_heap.h:29-67 | a comparator that does not order the nodes has a legal run over them that breaks heap order |
| `SkewHeap.MergeAmortised` | lab8/libs/skew_heap.h:29-59 | comparing calls plus new potential are at most old potentials plus 2 log2 of both sizes |
| `SkewHeap.RemoveSpineCost` | lab8/libs/skew_heap.h:69-85 | comparing calls of a removal plus new potential are at most old potential plus the even ancestors of the node and twice the light nodes on the right spines of its children |
| `SkewHeap.StepAmortised` | lab8/libs/skew_heap.h:61-85 | comparing calls of an insert or a removal of any node plus new potential are at most old potential plus 5 log2(N + 1) |
| `SkewHeap.RunInvariant` | lab8/libs/skew_heap.h:61-85 | over every legal run on nodes that the comparator orders: heap order and a minimum at the root |
| `SkewHeap.RunNodes` | lab8/libs/skew_heap.h:61-85 | over every legal run, for every comparator: exactly the live nodes, once each |
| `SkewHeap.RunAmortised` | lab8/libs/skew_heap.h:61-85 | m operations on at most N nodes make at most 5 m log2(N + 1) comparing calls |
| `SkewHeapPointers.Init` | lab8/libs/skew_heap.h:23-27 | the three pointers are cleared |
| `SkewHeapPointers.Merge` | lab8/libs/skew_heap.h:29-59 | the pointers represent the merged tree, with correct parent links below the root |
| `SkewHeapPointers.Insert` | lab8/libs/skew_heap.h:61-67 | the pointers represent the heap with the new node |
| `SkewHeapPointers.Remove` | lab8/libs/skew_heap.h:69-85 | the pointers represent the heap without the node |
| `SkewHeapPointers.RunAll` | lab8/libs/skew_heap.h:23-85 | every legal run from empty leaves links that represent the run's tree of exactly the live nodes, with as many comparing calls as `SkewHeap.RunAmortised` bounds, for every comparator; the root is a minimum when the comparator orders the nodes |
| `AesTables.SiUndoesS` | lab8/tools/kflash.py:105-107 | the inverse S-box undoes the S-box; `Fips197.SBoxIs` says which S-box it is |
| `AesTables.StandardTablesAreGood` | lab8/tools/kflash.py:105-125 | xor and multiplication by x obey the laws that the tables rest on |
| `AesTables.RconIsPowersOfX` | lab8/tools/kflash.py:102-103 | the round constants are the powers of x |
| `AesSpec.InvMixColumnUndoes` | lab8/tools/kflash.py:115-125 | the inverse matrix undoes the matrix |
| `AesSpec.InvRoundsMeetRounds` | lab8/tools/kflash.py:212-254 | the rounds of the equivalent inverse cipher run back the rounds of the cipher |
| `AesSpec.CipherRoundTrip` | lab8/tools/kflash.py:199-265 | the equivalent inverse cipher undoes the cipher |
| `Aes.EncryptionTables` | lab8/tools/kflash.py:109-113 | four lookups are the substitution and the mixing of one column |
| `Aes.DecryptionTables` | lab8/tools/kflash.py:115-119 | four lookups are the inverse substitution and the inverse mixing of one column |
| `Aes.GatherShifts` | lab8/tools/kflash.py:212-219 | the bytes that a round takes from the four words are ShiftRows |
| `Aes.InvGatherShifts` | lab8/tools/kflash.py:246-253 | the bytes that a decryption round takes are InvShiftRows |
| `Aes.KeyTables` | lab8/tools/kflash.py:121-125 | U1 to U4 are InvMixColumns |
| `Aes.ExpandKey` | lab8/tools/kflash.py:127-197 | both schedules are those of FIPS 197 for 16-, 24- and 32-byte keys; other lengths are refused |
| `Aes.Encrypt` | lab8/tools/kflash.py:199-231 | the table rounds compute the cipher |
| `Aes.Decrypt` | lab8/tools/kflash.py:233-265 | the table rounds compute the equivalent inverse cipher |
| `Aes.BlockRoundTrip` | lab8/tools/kflash.py:199-265 | decryption undoes encryption, for every key and block |
| `Aes.EncryptThenDecrypt` | lab8/tools/kflash.py:127-265 | the same for the running code |
| `StandardAes.StandardLayersInvertible` | lab8/tools/kflash.py:105-125 | the standard tables give invertible rounds |
| `StandardAes.DecryptUndoesEncrypt` | lab8/tools/kflash.py:127-265 | with the tables of the source, decrypt after encrypt is the identity; the ciphertext between them is given by the laws of `Fips197` |
| `StandardAes.FirmwareComesBack` | lab8/tools/kflash.py:1101-1105 | with the tables of the source, the encrypted firmware decrypts to the firmware followed by zeros; its blocks are given by `Cbc.ChainAt` and the laws of `Fips197` |
| `Fips197.SBoxIs` | lab8/tools/kflash.py:105-107 | the S-box is the inverse in the field, 0 for 0, and then the affine transformation of section 5.1.1 of FIPS 197 |
| `Fips197.ColumnsAreMixed` | lab8/tools/kflash.py:109-113 | column mixing multiplies by the matrix of section 5.1.3 |
| `Fips197.ColumnsAreUnmixed` | lab8/tools/kflash.py:121-125 | inverse column mixing multiplies by the matrix of section 5.3.3 |
| `Fips197.RowsShift` | lab8/tools/kflash.py:212-219 | row r is shifted by r places, and back |
| `Fips197.BytesAreSubstituted` | lab8/tools/kflash.py:212-219 | every byte is substituted where it stands |
| `Fips197.KeysAreAdded` | lab8/tools/kflash.py:212-219 | the round key is added byte by byte |
| `Fips197.BytesByColumn` | lab8/tools/kflash.py:199-231 | input and output take the state column by column |
| `Fips197.TTables` | lab8/tools/kflash.py:109-113 | T1 to T4 are a substituted byte times a column of the matrix |
| `Fips197.UTables` | lab8/tools/kflash.py:121-125 | U1 to U4 are a byte times a column of the inverse matrix |
| `Fips197.InverseTTables` | lab8/tools/kflash.py:115-119 | T5 to T8 are U1 to U4 after the inverse substitution |
| `Fips197.CipherStates` | lab8/tools/kflash.py:199-231 | an encryption is a sequence of states, one per round key, and the last round does not mix |
| `Fips197.KeyIsExpanded` | lab8/tools/kflash.py:143-182 | every word of the expanded key is given by the word before and the word Nk places before |
| `Fips197.RoundKeysAre` | lab8/tools/kflash.py:135-182 | round key r is words 4 r to 4 r + 3; there are 11, 13 or 15 |
| `FirmwareInFlash.FlashEncrypted` | lab8/tools/kflash.py:1095-1135 | raises iff the key has no legal length or the length of the image does not fit into 32 bits; otherwise the writes are contiguous, the flag is 1, and the field that the length delimits unchains to the firmware followed by zeros |
| `FirmwareInFlash.LoadEncrypted` | lab8/tools/kflash.py:267-296 | decrypting that field with the AES_128_CBC class gives the plaintext |
| `FirmwareInFlash.FieldReads` | lab8/tools/kflash.py:1096-1113 | the field that the length in the header delimits is the image |
| `FirmwareInFlash.FlashedComesBack` | lab8/tools/kflash.py:1095-1135 | with the tables of the source: encrypt, flash, read back and decrypt gives the firmware followed by zeros, for every key of 16, 24 or 32 bytes and every firmware whose image length fits the header; the bytes in flash are given by `Flash.HeaderReads`, `Cbc.ChainAt` and the laws of `Fips197` |
| `Cbc.ChainRoundTrip` | lab8/tools/kflash.py:279-296 | unchaining undoes chaining |
| `Cbc.ChainAt` | lab8/tools/kflash.py:279-286 | block i of the ciphertext is the cipher of block i of the plaintext added to block i - 1 of the ciphertext, or to the vector |
| `Cbc.AesCbc.constructor` | lab8/tools/kflash.py:269-276 | the chain starts at the given vector |
| `Cbc.AesCbc.Encrypt` | lab8/tools/kflash.py:279-286 | one step of chaining |
| `Cbc.AesCbc.Decrypt` | lab8/tools/kflash.py:288-296 | one step of unchaining |
| `Cbc.EncryptFirmware` | lab8/tools/kflash.py:1101-1105 | the ciphertext is the chained firmware padded to whole blocks, 16 times the rounded-up number of blocks long |
| `Cbc.FirmwareRoundTrip` | lab8/tools/kflash.py:1101-1105 | unchaining gives the firmware followed by zeros |
| `Cbc.UnchainAppend` | lab8/tools/kflash.py:288-296 | unchaining one block more gives one block more, which depends on the last two |
| `Cbc.DecryptAll` | lab8/tools/kflash.py:288-296 | decrypting block after block with one object is unchaining the image |
| `Cbc.DecryptFirmware` | lab8/tools/kflash.py:267-296 | a fresh object with the zero vector unchains the image |
| `Cbc.FirmwareDecrypts` | lab8/tools/kflash.py:267-296 | encrypting the firmware with one object and decrypting the image with another gives the firmware followed by zeros; other key lengths are refused |
| `Slip.ReplacesAreEscape` | lab8/tools/kflash.py:657-660 | the two replacements in this order are the one-pass escape |
| `Slip.SwappedExactly` | lab8/tools/kflash.py:657-660 | in the other order they are the escape iff the packet holds no END byte |
| `Slip.FrameOfOne` | lab8/tools/kflash.py:657-660 | the frames of no byte and of one byte, in numbers |
| `Slip.FrameOfBoth` | lab8/tools/kflash.py:657-660 | the frame of two packets put together is their frames without the bytes between |
| `Slip.SlipReader.Read` | lab8/tools/kflash.py:329-359 | one read drives the state machine over its bytes; an empty read times out |
| `Slip.RefusedExactly` | lab8/tools/kflash.py:329-359 | the reader goes on after a stream iff some bytes complete the stream to a sequence of frames |
| `Slip.ByteRefusedExactly` | lab8/tools/kflash.py:342-353 | after a stream that can be completed, a byte raises iff no sequence of frames goes on with it, and the error names that byte |
| `Slip.StreamIsFrames` | lab8/tools/kflash.py:329-359 | what was read is always the frames of the packets yielded and the pending frame |
| `Slip.FramesAreRead` | lab8/tools/kflash.py:329-359 | the frames of any packets are read as these packets |
| `Slip.AcceptedExactly` | lab8/tools/kflash.py:329-359 | a stream is accepted as these packets iff it is their frames, so re-encoding gives the same bytes |
| `Slip.ReadBack` | lab8/tools/kflash.py:329-359 | every split of the frames into non-empty reads yields exactly the packets |
| `Flash.RefusedExactly` | lab8/tools/kflash.py:460-465 | chunks raises iff the address is not on a sector boundary |
| `Flash.ChunksAreTheData` | lab8/tools/kflash.py:460-476 | the chunks put together are the data |
| `Flash.PlainIsData` | lab8/tools/kflash.py:474-476 | the same without an address, for every chunk size |
| `Flash.PlainSizes` | lab8/tools/kflash.py:474-476 | every chunk has n bytes but the last, which has at least one |
| `Flash.ChunkSizes` | lab8/tools/kflash.py:460-476 | the number of chunks, and which bytes chunk k holds: 4096 while it starts before the first 64 KiB boundary, then 65536, or what is left |
| `Flash.PaddedIs` | lab8/tools/kflash.py:1118-1135 | padding adds zeros up to the next multiple of 4096 |
| `Flash.WithinFrame` | lab8/tools/kflash.py:460-473 | no chunk crosses a 64 KiB boundary, not even padded |
| `Flash.EmptyChunkExactly` | lab8/tools/kflash.py:466-473 | some chunk is empty iff the data end more than a sector before the first boundary |
| `Flash.DumpToFlash` | lab8/tools/kflash.py:1001-1041 | contiguous writes of all the data, each of `size` bytes but the last; a zero size raises |
| `Flash.FlashFirmware` | lab8/tools/kflash.py:1118-1135 | raises iff misaligned or a chunk is empty; otherwise one write for every padded chunk, contiguous and inside one frame each, and together the zero-padded data |
| `Flash.FlashSigned` | lab8/tools/kflash.py:1095-1135 | with a header nothing raises at any address: one write for every padded piece of 65536 bytes, contiguous, which all stay inside one 64 KiB frame iff the address is at a frame boundary or everything fits into the rest of its frame |
| `Flash.FramesExactly` | lab8/tools/kflash.py:1116-1135 | chunks that are cut without the address stay inside frames iff they start at a frame or fit into one |
| `Flash.HeaderReads` | lab8/tools/kflash.py:1096-1113 | in flash lie the flag 0 or 1, the length in four bytes of which the lowest comes first, the firmware and the digest |
| `Flash.FlashChunks` | lab8/tools/kflash.py:1122-1135 | the loop raises iff a chunk is empty; otherwise one padded write per chunk, each behind the other |
| `Printf.NumberLength` | lab8/libs/printfmt.c:53-69 | a printed number is as long as its width or its digits, whichever is more |
| `Printf.ScanFlags` | lab8/libs/printfmt.c:155-200 | the flags of an escape contain no '%' and end at a character that is no flag |
| `Printf.UnrecognisedIsVerbatim` | lab8/libs/printfmt.c:287-292 | an unrecognised escape is printed as it stands |
| `Printf.PlainText` | lab8/libs/printfmt.c:142-148 | text without '%' is printed as it stands |
| `FormatLaws.EscapeAt` | lab8/libs/printfmt.c:151-200 | the flags of every escape as it is written: '#', padding, width, precision, 'l', and the arguments that stars take |
| `FormatLaws.EscapeDoes` | lab8/libs/printfmt.c:135-295 | an escape prints its conversion and goes on behind it with the arguments that are left |
| `FormatLaws.UnsignedPrints` | lab8/libs/printfmt.c:255-281 | %u, %o and %x print a padded numeral of the argument modulo 2^32, or 2^64 with 'l', in base 10, 8 and 16, which `strtol` reads back in that base |
| `FormatLaws.SignedPrints` | lab8/libs/printfmt.c:244-252 | %d prints the sign, then the padded numeral; `strtol` reads it back iff it is not negative or has no blanks behind its sign |
| `FormatLaws.PointerPrints` | lab8/libs/printfmt.c:266-272 | %p prints 0x and the padded numeral in base 16; `strtol` reads it back iff no blanks follow the prefix |
| `FormatLaws.CharacterPrints` | lab8/libs/printfmt.c:202-205 | %c prints the last byte of the argument |
| `FormatLaws.PercentPrints` | lab8/libs/printfmt.c:282-285 | %% prints a percent sign and takes no argument |
| `FormatLaws.TextPrints` | lab8/libs/printfmt.c:221-242 | %s prints the text, cut to the precision and padded, with '?' for what is not printable behind '#' |
| `FormatLaws.ErrorPrints` | lab8/libs/printfmt.c:207-219 | %e prints the message of a code of either sign, or "error" and the code |
| `FormatLaws.DigitsAreNumeral` | lab8/libs/printfmt.c:53-69 | the digits of a number are 0 to 9 and a to f below the base, have its value, and no needless zero in front |
| `FormatLaws.DigitValues` | lab8/libs/string.c:244-265 | digits count from '0', letters of either case from 10 on |
| `PrintfBuffer.SprintBuf.Putch` | lab8/libs/printfmt.c:309-315 | counts every character and stores it while there is room |
| `PrintfBuffer.PrintNum` | lab8/libs/printfmt.c:53-69 | the recursion prints padding up to the width, then the digits |
| `PrintfBuffer.PrintText` | lab8/libs/printfmt.c:221-242 | the loops print the clipped string padded on the left or, with '-', on the right |
| `PrintfBuffer.PrintError` | lab8/libs/printfmt.c:207-219 | the message of an error code of either sign, or its number |
| `PrintfBuffer.PrintSigned` | lab8/libs/printfmt.c:244-252 | the sign, then the padded number |
| `PrintfBuffer.Strnlen` | lab8/libs/string.c:33-40 | the length up to the limit |
| `PrintfBuffer.ReadFlags` | lab8/libs/printfmt.c:151-200 | the reswitch loop collects the flags |
| `PrintfBuffer.ReadFlag` | lab8/libs/printfmt.c:155-200 | one turn of the reswitch loop leaves the flags that are still to be read |
| `PrintfBuffer.BackUp` | lab8/libs/printfmt.c:287-292 | the back-up stops right behind the '%' of the escape |
| `PrintfBuffer.VPrintFmt` | lab8/libs/printfmt.c:135-295 | the interpreter ends on every format and prints what the format means, which `FormatLaws` states escape by escape |
| `PrintfBuffer.VSNPrintF` | lab8/libs/printfmt.c:347-358 | returns the full length of what the format means, stores the first min(length, size - 1) characters and a NUL, touches nothing else |
| `Strtol.StrToL` | lab8/libs/string.c:215-271 | the value of the longest numeral, cut to 64 bits, and where it ends |
| `Strtol.ParseIs` | lab8/libs/string.c:215-271 | every string has a reading as blanks, sign, prefix and digits, each as long as it can be, and the number is the sum of its digits times powers of the base |
| `Strtol.GrammarUnique` | lab8/libs/string.c:215-271 | and only one |
| `Strtol.WrapIs` | lab8/libs/string.c:263-264 | the result differs from that number by a multiple of 2^64 and is in range |
| `Strtol.PrintedIsRead` | lab8/libs/string.c:215-271 | strtol reads back every number below 2^63 printed in base 8, 10 or 16 with any width and blank or zero padding, to its end |
| `Strtol.NegativeIsRead` | lab8/libs/string.c:215-271 | a negative one iff it is padded with zeros or not at all |
| `Strtol.PointerIsRead` | lab8/libs/printfmt.c:266-272 | a pointer printed by %p is read back by strtol in base 0 or 16 iff it is padded with zeros or not at all |
| `Shell.StrChr` | lab8/libs/string.c:154-163 | finds the first occurrence and never the NUL |
| `Shell.GetToken` | lab8/user/sh.c:18-47 | one call returns the next token, whose word end is given by counting quotes, or 0 when only blanks are left; it leaves NULs before it, its text without quotes, and touches nothing behind it |
| `Shell.TakeAll` | lab8/user/sh.c:18-47 | calling until 0 returns exactly the one tokenization of the line; in the buffer words keep their text with quotes turned into spaces and everything else is NUL |
| `Shell.TokensAre` | lab8/user/sh.c:18-47 | the tokens follow one another with nothing but blanks between: a symbol by itself, or a word in which every blank and symbol stands behind an odd number of quotes and which ends at one that does not |
| `Shell.WordEndUnique` | lab8/user/sh.c:36-43 | these two facts determine where a word ends |
| `Shell.TokenizationUnique` | lab8/user/sh.c:18-47 | a line has only one tokenization |
| `Shell.LeftRemains` | lab8/user/sh.c:18-47 | what is left at a position is its character in a word, a space for a quote in a word, and NUL elsewhere |
| `Shell.WordsEndInNul` | lab8/user/sh.c:18-47 | every word is then its text, quotes turned into spaces, ended by a NUL |
| `Shell.OnlyDelimiters` | lab8/user/sh.c:18-47 | only white space, symbols and quotes are overwritten |
| `Cnn.WordIs` | lab8/kern/driver/cnn.c:204-218 | the stream holds at places 12 i to 12 i + 11 the twelve fields of layer i, named one by one |
| `Cnn.CnnContinue` | lab8/kern/driver/cnn.c:185-246 | at most twelve layers are pushed, field by field behind what the FIFO held, and leave the pending ones |
| `Cnn.CnnRun` | lab8/kern/driver/cnn.c:305-335 | the last layer is marked and the first burst is pushed, field by field |
| `Cnn.Feed` | lab8/kern/driver/cnn.c:185-335 | after k bursts the FIFO holds the fields of the first min(L, 12 k) layers, in order and once each, the last layer marked |
| `Cnn.MarkedIs` | lab8/kern/driver/cnn.c:305-335 | marking sets bit 0 of interruptEnable and dmaParameter of the last layer and changes no other bit, field or layer |
| `Cnn.EnoughBursts` | lab8/kern/driver/cnn.c:185-246 | everything is pushed iff there were L / 12 bursts, rounded up |

## Left out

- `lab8/tools/mksfs.c`: the host system calls, short reads and read errors; the stack of path names kept for messages, with the assertion of `subpath_pop` that it is not empty.
- SfsBuilder.Sfs.OpenLink: only link texts as such; `readlink` errors are not modelled.
- Flash.FlashFirmware: retries, checksums and progress output, addresses and lengths of 2^32 and more; chunk counts are exact, floating-point rounding of `math.ceil` on huge lengths is not modelled.
- PrintfBuffer.VPrintFmt: overflow of C integers in width fields and counts, and arguments of the wrong type (a missing argument reads as 0 or as NULL).
- FirmwareInFlash.FlashEncrypted: the digest is an arbitrary parameter, and which exception is raised is not told apart.
- Strtol.StrToL: C leaves overflow undefined; the model wraps to 64 bits.
- Cnn.CnnRun: DMA set-up, interrupt masks and the wait for the input copy.
- `recv_one_return` and `flash_dataframe` of `lab8/tools/kflash.py`: the first keeps raw escape bytes, the second moves its address while retrying.
- Serial port, reset sequences, argument parsing, archives, checksums and the embedded loader of `lab8/tools/kflash.py`.
- `runcmd`, `readline` and `reopen` of `lab8/user/sh.c`, and the other drivers and kernel parts: register access, process and file-descriptor calls.
- `lab8/libs/list.h`, `rand.c`, `hash.c` and the remaining string functions: they would only add easy members.
