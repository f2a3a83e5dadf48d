# Ext2 reader model

A Dafny model of a small read-only ext2 reader written in Java. The reader
opens a disk image, decodes the superblock at byte 1024 and the three
group descriptors in block 2, and decodes inode records from each group's
inode table. It expands the direct and the single-, double- and
triple-indirect block pointers of an inode. It walks a slash-separated
path from root inode 2, one directory block per component, and assembles
the file it ends on into a byte buffer with an offset read, a cursor read
and a seek. It also lists a directory in `ls -l` style.

The disk image is an immutable `seq<Byte>`. Every reader is a total
function over it, and every Java exception that depends on the image's
contents becomes an `Err` value. The model keeps the reader's behaviour as
written, including its quirks:

- `Helper.toLong` reads only two bytes, so every "4-byte" pointer is a
  sign-extended short.
- The file assembly appends only the last block of each indirect list.
- `fileInfo`'s walk adjusts the group with two `if`s in sequence where the
  other walks use `if`/`else if`; the two choose alike, since the second
  `if` can never fire after the first.
- A stored size with bit 15 of its low half set is sign-extended by
  `toLong`, and the `(int)` cast of the buffer capacity then wraps to at
  most 0, so such a file cannot be opened with any content.
- `read(startByte, length)` copies only `length - startByte` bytes.
- The duplicate decoder in `Inode.java` reads no direct pointer, so every
  later field comes from 48 bytes earlier in the record.

Modules follow the source files (Volume.java's pointer loops have one of their own), plus shared modules for results, bytes, maps and path splitting:

| file | module | models |
|---|---|---|
| results.dfy | Results | `Option` and `Result` |
| bytes.dfy | Bytes | Java integer narrowing, little-endian reads, `getBytes`, `toLong`, the 64-bit size combination |
| treemaps.dfy | TreeMaps | `TreeMap<String,Integer>` as a sequence of pairs sorted by `String.compareTo` |
| helper.dfy | Helper | `toDirectory` and `fileMode` |
| volume.dfy | Volumes | the Volume constructor, layout, field readers, group choice and the nested inode decoder |
| pointers.dfy | Pointers | `findDirect` and the three `find*Indirect` loop nests |
| paths.dfy | Paths | `String.split("/")` |
| ext2file.dfy | Ext2Files | the path walk, the buffer assembly, `read`, `read(int)`, `seek`, `position`, `size` |
| directory.dfy | Directories | `fileInfo`: its walk, the blocks it collects and the rows it prints |
| inode.dfy | Inodes | the top-level `Inode` decoder |

## Model

| member | source | states |
|---|---|---|
| Bytes.ToInt32 | Ext2File.java:101-104 | Java's `(int)` cast: the result is an int, equals the argument when that is already an int, and keeps its residue modulo 2^32 |
| Bytes.Signed32IsNarrowing | Volume.java:439-443 | reading four little-endian bytes as a signed int is the `(int)` narrowing of their unsigned value, with the same residue modulo 2^32 |
| Bytes.GetBytes | Volume.java:84-98 | `getBytes(start, length)` returns exactly length bytes: byte i is the image's byte start+i (0 past its end), and every byte is 0 for a negative start |
| Bytes.GetBytesSlice | Volume.java:84-98 | inside the image, `getBytes(start, length)` is exactly the slice image[start..start+length] |
| Bytes.GetBytesOutside | Volume.java:84-98 | a start before byte 0 or past the end leaves the whole array at zero |
| Bytes.BufferI32 | Volume.java:470-477 | a 32-bit read at offset off of a `getBytes` buffer is the int at image offset start+off, or 0 when the start is before the image |
| Bytes.ToLong | Helper.java:82-89 | `toLong` depends on the first two bytes only: b0 + 256*b1 when b1 < 128, that value minus 65536 otherwise |
| Bytes.ToLongOfLe32 | Helper.java:82-89 | `toLong` of a 4-byte little-endian encoding of x is the low 16 bits of x, sign-extended |
| Bytes.ToLongExactIff | Helper.java:82-89 | `toLong` reads an encoded 32-bit value back exactly iff the value is below 0x8000 |
| Bytes.I32OfLe32 | Volume.java:439-443 | a real 4-byte read recovers the encoded value as an int |
| Bytes.Combine64Parts | Volume.java:318-324 | `(upper << 32) \| (lower & 0xffffffffL)` has upper as its high half and lower's 32 bits as its low half |
| Bytes.Combine64ZeroUpper | Volume.java:318-324 | with a zero upper half the size is lower read as unsigned |
| Bytes.Combine64Split | Inode.java:58 | every long is the combination of its high and low halves |
| TreeMaps.Put | Helper.java:163 | `put` keeps the map sorted, maps the key to the new value, changes no other key, and adds exactly that key |
| TreeMaps.GetIffKey | Helper.java:163 | a lookup succeeds exactly for the keys in the map |
| TreeMaps.SortedStrictly | Helper.java:145 | entry iteration is in strictly ascending key order |
| TreeMaps.LessTransitive | Helper.java:145 | the key order of `String.compareTo` is transitive |
| TreeMaps.LessTotal | Helper.java:145 | any two distinct keys are ordered one way |
| Helper.ToDirectory | Helper.java:140-169 | a block that parses gives a map in strictly ascending name order |
| Helper.ParseFromChain | Helper.java:147-166 | a successful parse tiles the block: the first record starts at 0, each next one at the previous start plus its record length, the last one ends at byte 1024, and each record's inode, length, name length, type and name are the bytes at its start |
| Helper.ParseFromComplete | Helper.java:147-166 | conversely, a block tiled from 0 to its end by records that the bytes at their starts describe parses to exactly those records |
| Helper.Build | Helper.java:145-163 | the map filled by `put` in disk order is sorted and holds exactly the names of the records |
| Helper.BuildLastWins | Helper.java:163 | a name maps to the inode of the last record carrying it, inode 0 included |
| Helper.BuildAbsent | Helper.java:163 | a name no record carries is absent from the map |
| Helper.ToDirectoryMeaning | Helper.java:140-169 | `toDirectory` of a block that parses is the sorted map of last-record inodes, with no other names |
| Helper.FileMode | Helper.java:38-73 | the mode string always has ten characters |
| Helper.FileModeLayout | Helper.java:38-73 | character 0 is 'd' iff bit 0x4000 is set; character k is "rwxrwxrwx"[k-1] iff bit 0x100 >> (k-1) is set, '-' otherwise |
| Helper.FileModeOfToLong | Helper.java:38-73 | the sign extension of `toLong` never changes the mode string |
| Helper.BitBelow16 | Helper.java:38-73 | bits 0..15 of a mode are the same before and after the sign extension |
| Volumes.ReadSuperBlock | Volume.java:433-451 | the two counts are relative reads from byte 1024 and 1028; the other fields are absolute reads at 1024 + 32, 40, 56, 88 and 120..135 |
| Volumes.ReadGroupDescriptor | Volume.java:470-477 | descriptor g's table pointer is the int at 2048 + 32g + 8 |
| Volumes.Open | Volume.java:45-75 | the volume keeps the image, the superblock counts at 1024, 1064 and 1112, and exactly three descriptors with their table pointers |
| Volumes.Mount | Volume.java:45-75 | the constructor fails iff the inode count is negative, or is positive while the record size is below the 112 bytes an inode decode reads; the failure is that of the first inode |
| Volumes.MountDecodesEveryInode | Volume.java:72-74 | on a volume that mounts, every inode of the eager loop decodes |
| Volumes.InodeFaultUniform | Volume.java:549-589 | an inode decode fails for one inode number iff it fails for inode 0, with the same fault |
| Volumes.ReadPtrIsToLong | Volume.java:108-119 | a pointer read as `toLong(getBytes(off, 4))` is the short at off, the same as a 2-byte read |
| Volumes.GetFileMode | Volume.java:253-256 | the mode is `toLong` of the two bytes `getBytes` returns at +0 of the record; ReadersVersusRecord relates it to the decoded record |
| Volumes.GetHardLinks | Volume.java:266-269 | the link count is `toLong` of the two bytes `getBytes` returns at +26; ReadersVersusRecord relates it to the decoded record |
| Volumes.GetUserId | Volume.java:292-295 | the owner is `toLong` of the two bytes `getBytes` returns at +2; ReadersVersusRecord relates it to the decoded record |
| Volumes.GetGroupId | Volume.java:305-308 | the "group id" is `toLong` of the two bytes `getBytes` returns at +20, which ReadersVersusRecord shows is the low half of the deletion time |
| Volumes.GetModTime | Volume.java:279-282 | the modification time is an int |
| Volumes.GetFileSize | Volume.java:318-324 | the size's high half is the short at +108 and its low 32 bits are those of the short at +4 |
| Volumes.FindDirectory | Volume.java:228-231 | the directory pointer is `toLong` of the four bytes `getBytes` returns at +40, the record's first direct slot |
| Volumes.ReadDirectory | Volume.java:240-243 | a directory block that parses gives a map in strictly ascending name order |
| Volumes.GetModTimeIsBufferRead | Volume.java:279-282 | the modification time is the int of the 4-byte buffer read at +16 |
| Volumes.FileSizeHalves | Volume.java:318-324 | the size is the combination of the shorts at +108 and +4 |
| Volumes.FileSizeOfStoredSize | Volume.java:318-324 | a record that stores size x with a zero upper half reads back as x below 0x8000, and as 2^32 - 2^16 plus the low 16 bits of x when bit 15 of x is set |
| Volumes.ReadersVersusRecord | Volume.java:253-309 | the field readers agree with the nested decoder on mode, uid, links and modification time; the reader's group id is the low half of the decoder's deletion time |
| Volumes.SelectGroup | Ext2File.java:174-186 | for a positive ipg below 2^30 and 1 <= n <= 3ipg, the chosen table and local number are n's slot in the uniform three-group layout (group 0 keeping the current pointer), except n = 2ipg, which keeps pointer and number |
| Volumes.LocateInode | Volume.java:535-547 | the nested decoder always picks one of the three groups |
| Volumes.LocateInodeVersusLayout | Volume.java:535-547 | on three uniform groups the hard-coded choice agrees with the uniform layout for every inode except n = 2ipg, which stays in group 0 unchanged |
| Volumes.SelectGroupAgreesWithLocate | Volume.java:535-547 | the walks' group choice from group 0 equals the nested decoder's |
| Volumes.DecodeInodeRecord | Volume.java:549-589 | decoding fails iff the record size is below 112, with the negative-size fault for a negative size; a decoded record has 12 direct pointers |
| Volumes.InodeRecordHeader | Volume.java:551-562 | mode at 0, uid at 2, low size at 4, the four times at 8..23, gid at 24 and links at 26 |
| Volumes.InodeRecordDirect | Volume.java:573-577 | direct pointer i is the int at 40 + 4i |
| Volumes.InodeRecordIndirect | Volume.java:579-585 | indirect at 88, double at 92, triple at 96, upper size at 108 |
| Volumes.InodeRecordBeforeImage | Volume.java:551-556 | a record before byte 0 decodes to the all-zero record: every field 0 and twelve zero direct pointers |
| Volumes.RecordFileSize | Volume.java:588 | the decoder's size has the upper int as high half and the lower int's bits as low half |
| Pointers.ChildrenLeaf | Volume.java:136-140 | one level down, the expansion is the slot values with zeros dropped, in slot order |
| Pointers.ExpandFacts | Volume.java:129-206 | an expansion of depth d holds at most 256^d blocks, none of them 0, each a short |
| Pointers.FindDirect | Volume.java:108-119 | the non-zero values of the 12 slots at +40, in slot order, at most 12 |
| Pointers.FindIndirect | Volume.java:129-143 | nothing when the pointer at +88 is 0; otherwise the non-zero values of its 256 slots, in order, at most 256 |
| Pointers.FindDoubleIndirect | Volume.java:153-173 | the depth-2 expansion of the pointer at +92: each non-zero slot's single expansion, in order; nothing for pointer 0; at most 256^2 |
| Pointers.FindTripleIndirect | Volume.java:183-206 | the depth-3 expansion of the pointer at +96; nothing for pointer 0; at most 256^3 |
| Paths.Split | Ext2File.java:146 | no piece of a split path holds a slash |
| Paths.JoinFields | Ext2File.java:146 | cutting a path at its slashes and gluing the pieces back with slashes gives the path again |
| Paths.FieldsJoin | Ext2File.java:146 | gluing slash-free pieces and cutting again gives the pieces back |
| Paths.SplitMeaning | Ext2File.java:146 | `split("/")` of a slash-free string is that string; otherwise it is the pieces up to the last non-empty one, and every dropped piece is empty |
| Paths.SplitAbsolute | Directory.java:50 | an absolute path of non-empty names splits into an empty first piece and then the names |
| Ext2Files.MatchName | Ext2File.java:168-172 | the while loop over the entry set computes the entry scan |
| Ext2Files.MatchEntriesIsGet | Ext2File.java:168-172 | in a sorted map the entry loop ends with the inode stored under the name, or the previous inode when the name is absent |
| Ext2Files.WalkStep | Ext2File.java:159-187 | a component fails with the directory block's fault; otherwise it takes the looked-up inode and applies the group choice, and re-reads the directory pointer only when the group changes |
| Ext2Files.AbsentNameKeepsState | Ext2File.java:168-186 | a name absent from the directory leaves inode, pointer and directory unchanged when the current inode is in group 0 |
| Ext2Files.GroupZeroMatchKeepsDirectory | Ext2File.java:174-186 | a match in group 0 takes the inode but keeps pointer and directory |
| Ext2Files.WalkOnce | Ext2File.java:159-187 | one pass of the component loop computes the walk step |
| Ext2Files.WalkAppend | Ext2File.java:159-187 | walking a + b is walking a and then b from where a ended; a fault stops the walk |
| Ext2Files.WalkPath | Ext2File.java:146-187 | the loop over the components computes the walk from root inode 2 in group 0's table |
| Ext2Files.Capacity | Ext2File.java:190 | the capacity is an int and a whole number of blocks, whatever the size |
| Ext2Files.CapacityCovers | Ext2File.java:190 | for a size in [0, 2^31 - 1024), below which the `(int)` cast does not wrap, the capacity is a multiple of 1024 strictly above the size and at most 1024 above it |
| Ext2Files.BlockBytesAppend | Ext2File.java:196-244 | the bytes of blocks a + b are those of a followed by those of b |
| Ext2Files.BlockBytesAt | Ext2File.java:198-203 | byte 1024k + j of the copied bytes is byte j of block k |
| Ext2Files.Assemble | Ext2File.java:189-245 | assembly fails iff the capacity is negative or the copied blocks (all direct blocks, then the last block of each non-empty indirect list) do not fit; otherwise size is the inode size, the buffer has the capacity, holds those blocks in order followed by zeros, and the cursor sits behind them; actualSize is 1024 per direct block, or 1024 when any indirect list is non-empty |
| Ext2Files.ActualWithinCopied | Ext2File.java:196-244 | actualSize is 1024 per direct block, or 1024 once an indirect list is non-empty, and never exceeds the bytes copied |
| Ext2Files.DirectsSizeCounts | Ext2File.java:198-204 | the direct loop adds 1024 to actualSize once per direct block |
| Ext2Files.PutDirects | Ext2File.java:196-205 | putting the direct blocks overflows iff they exceed the capacity, else writes them in order |
| Ext2Files.FillBuffer | Ext2File.java:196-244 | the direct loop and the three last-block copies, with their overflow checks, compute the filled buffer and actualSize |
| Ext2Files.CapacityOfWrappedSize | Ext2File.java:190 | the size getFileSize gives for a stored size with bit 15 of its low half set has a capacity of at most 0: its low half rounded down to blocks, minus 64512 |
| Ext2Files.StoredSizeBit15FailsOpen | Ext2File.java:188-205 | such a record fails to open with a negative capacity when its low half is below 0xFC00, and otherwise opens only as an empty buffer |
| Ext2Files.AssembleFile | Ext2File.java:189-245 | the four find calls and the puts compute the assembly |
| Ext2Files.OpenFile | Ext2File.java:34-39 | opening walks the split path from the root and assembles the inode it ends on; a walk fault is the file's fault |
| Ext2Files.Read | Ext2File.java:50-66 | null iff the offset is negative or not below size; otherwise exactly length bytes, the buffer's bytes from the offset while below both length - offset and actualSize - offset, zeros after |
| Ext2Files.ReadOneByteAfterStart | Ext2File.java:50-66 | a one-byte offset read at any offset from 1 up to the size returns a single zero |
| Ext2Files.ReadAtCursor | Ext2File.java:76-92 | null iff the cursor is past actualSize, with nothing changed; otherwise min(length, actualSize) bytes from the cursor, which advances by that count; an underflow leaves the cursor at the end of the buffer |
| Ext2Files.Seek | Ext2File.java:101-104 | the seek succeeds iff (int) p lies in [0, capacity], and then changes only the position, to (int) p |
| Ext2Files.SeekThenPosition | Ext2File.java:101-116 | after seeking to an offset inside the buffer, `position()` returns it |
| Ext2Files.CursorReadsConcatenate | Ext2File.java:76-92 | two cursor reads of a and b bytes within actualSize return what one read of a + b bytes returns, and leave the cursor in the same place |
| Ext2Files.CursorAgreesWithRead | Ext2File.java:50-92 | after a seek to p, a cursor read starts with the bytes an offset read at p copies |
| Ext2Files.FreshFileCursor | Ext2File.java:78-82 | a freshly assembled file with an indirect block and another block answers `read(int)` with null until it is moved back |
| Directories.AdjustSequentialIsSelectGroup | Directory.java:89-98 | fileInfo's two sequential `if`s choose exactly as the walks' `if`/`else if` |
| Directories.MatchInfoIsGet | Directory.java:81-104 | in a sorted map, fileInfo's entry loop enters the inode stored under the name, or does nothing |
| Directories.InfoStep | Directory.java:70-107 | each component re-reads the directory pointer of the current inode; a fault ends the walk; otherwise the named inode is entered, and on the last component its direct blocks are collected |
| Directories.OnlyLastCollects | Directory.java:99-103 | a walk collects nothing, or exactly the direct blocks of the inode it ends on |
| Directories.FileInfoListsFinalInode | Directory.java:47-149 | fileInfo lists the direct blocks of the final inode, and lists nothing when none were collected |
| Directories.RowOfVersusRecord | Directory.java:124-146 | an entry's row shows the mode string, link count, owner and modification time of the record the nested decoder reads for its inode; the group column is the low half of that record's deletion time |
| Directories.BlockRows | Directory.java:120-147 | one row per directory entry |
| Directories.BlockRowsAt | Directory.java:122-146 | row i is the mode string, links, uid, gid, size, time and name of entry i, looked up from group 0's table |
| Directories.RowsInNameOrder | Directory.java:117-120 | rows come out in strictly ascending name order |
| Directories.ListBlocksAppend | Directory.java:111-149 | listing blocks a + b prints a's rows and then, unless a faulted, b's |
| Inodes.DecodeShort | Inode.java:27-59 | the top-level decoder reads no direct pointer, and its three pointers are ints |
| Inodes.DecodeInode | Inode.java:27-59 | a decoded record has no direct pointers and needs at least 64 bytes of record; a shorter record fails |
| Inodes.DecodeInodeFaults | Inode.java:31 | decoding fails iff the record size is below 64, with the negative-size fault for a negative size |
| Inodes.DecodeInodeLayout | Inode.java:34-56 | header as in the nested decoder; indirect, double and triple at +40, +44, +48; upper size at +60 |
| Inodes.ShortVersusNested | Inode.java:44-58 | on the same record, the header fields agree with the nested decoder; the three pointers are its direct slots 0, 1 and 2; the upper size is its slot 5 and the size is built from it |
| Inodes.NestedOkImpliesShortOk | Inode.java:27-59 | every record the nested decoder accepts, this one accepts too |
| Inodes.DecodeInodeFileSize | Inode.java:58 | the size has the upper int as high half and the lower int's bits as low half |

## Left out

- Opening the image file and the `IOException` catch-and-print paths: the image is a given byte sequence, and a read past its end yields zeros.
- All console output: `readSuperBlock`, `readInode`, `readGroupDesc`, `readBlockGroup`, `Inode.readInode`, and the printing of `fileInfo`'s rows. Rows are values, and a listing carries the fault that cut it short.
- `java.util.Date`: modification times are the raw 32-bit seconds `readDate` starts from.
- `Helper.toHex`, `Helper.toString` and the Driver command-line entry point: formatting and I/O only.
- Helper.ParseFrom: a record length of 0, or a negative one that lands inside the block, makes the source loop forever or jump back; the model reports `Stalls` or `Backtracks` instead of following it.
- Volumes.DecodeInodeRecord and Inodes.DecodeInode: the record-too-short fault covers both the `BufferUnderflowException` of a read and the `IllegalArgumentException` of a skip past the buffer's end.
- Volumes.Mount: decoding inode 0 stands for the whole eager loop, as InodeFaultUniform shows that every inode number faults alike; the `Inode` objects themselves are not kept.
- Ext2Files.Read and Ext2Files.ReadAtCursor: a negative length, which throws `NegativeArraySizeException` before any read, is a precondition.
- Ext2Files.Read and Ext2Files.ReadAtCursor: lengths of 2^31 or more are excluded, since the `(int)` cast of the array size is not modelled.
- Ext2Files.Capacity: the long product `(size / 1024) * 1024 + 1024` cannot overflow because the size's upper half is a short, so it is computed unbounded and then narrowed to int.
- Ext2Files.AbsentNameKeepsState: the walk applies the group choice after every component, matched or not, so an absent name keeps the state only when the current inode number does not switch groups.
- Directories.RowOf: the `ls`-style text layout of a row is not modelled.
