/** Volume.java: the fixed on-disk layout. Superblock at byte 1024, the
    group-descriptor block at byte 2048, inode records in each group's inode
    table, and the per-field readers used by the path walks. */
module Volumes {
  import opened Bytes
  import opened Results
  import opened TreeMaps
  import opened Helper

  const BLOCK_SIZE: int := 1024
  const ROOT_INODE: int := 2
  const MAX_POINTERS: int := 256
  /** The reader always builds exactly this many group descriptors. */
  const GROUP_COUNT: int := 3
  /** Bytes the nested inode decoder reads from one record (up to sizeUp). */
  const INODE_RECORD_READ: int := 112

  datatype SuperBlock = SuperBlock(
    magicNumber: int, inodesInSys: int, blocksInSys: int, blocksInGroup: int,
    inodesInGroup: int, inodeSize: int, volLabel: string)

  datatype GroupDescriptor = GroupDescriptor(blockGroupNum: int, tablePointer: int)

  datatype Volume = Volume(image: seq<Byte>, superBlock: SuperBlock, groupDesc: seq<GroupDescriptor>)

  /** A volume as the constructor leaves it: three group descriptors. */
  type Ext2Volume = v: Volume | |v.groupDesc| == GROUP_COUNT
    witness Volume([], SuperBlock(0, 0, 0, 0, 0, 0, ""),
                   [GroupDescriptor(0, 0), GroupDescriptor(1, 0), GroupDescriptor(2, 0)])

  /** The SuperBlock constructor: block 1 read into a little-endian buffer;
      the two counts are relative reads from position 0, the rest absolute. */
  function ReadSuperBlock(img: seq<Byte>): (sb: SuperBlock)
    ensures sb.magicNumber == ImageI16(img, 1024 + 56)
    ensures sb.inodesInSys == ImageI32(img, 1024) && sb.blocksInSys == ImageI32(img, 1024 + 4)
    ensures sb.blocksInGroup == ImageI32(img, 1024 + 32) && sb.inodesInGroup == ImageI32(img, 1024 + 40)
    ensures sb.inodeSize == ImageI32(img, 1024 + 88)
    ensures |sb.volLabel| == 16 && forall i :: 0 <= i < 16 ==> sb.volLabel[i] == Widen(At(img, 1024 + 120 + i))
  {
    var buffer := GetBytes(img, BLOCK_SIZE, BLOCK_SIZE);
    BufferI16(img, BLOCK_SIZE, BLOCK_SIZE, 56);
    BufferI32(img, BLOCK_SIZE, BLOCK_SIZE, 0);
    BufferI32(img, BLOCK_SIZE, BLOCK_SIZE, 4);
    BufferI32(img, BLOCK_SIZE, BLOCK_SIZE, 32);
    BufferI32(img, BLOCK_SIZE, BLOCK_SIZE, 40);
    BufferI32(img, BLOCK_SIZE, BLOCK_SIZE, 88);
    SuperBlock(I16At(buffer, 56), I32At(buffer, 0), I32At(buffer, 4), I32At(buffer, 32),
               I32At(buffer, 40), I32At(buffer, 88),
               seq(16, i requires 0 <= i < 16 => Widen(buffer[120 + i])))
  }

  /** The GroupDescriptor constructor: the table pointer is the int at byte 8
      of the 32-byte descriptor g inside block 2. */
  function ReadGroupDescriptor(img: seq<Byte>, g: int): (gd: GroupDescriptor)
    requires 0 <= g && 32 * g + 12 <= BLOCK_SIZE
    ensures gd.blockGroupNum == g && gd.tablePointer == ImageI32(img, 2048 + 32 * g + 8)
  {
    BufferI32(img, BLOCK_SIZE * 2, BLOCK_SIZE, 32 * g + 8);
    GroupDescriptor(g, I32At(GetBytes(img, BLOCK_SIZE * 2, BLOCK_SIZE), 32 * g + 8))
  }

  /** The Volume constructor, without the eager construction of every inode. */
  function Open(img: seq<Byte>): (v: Ext2Volume)
    ensures v.image == img
    ensures v.superBlock.inodesInSys == ImageI32(img, 1024)
    ensures v.superBlock.inodesInGroup == ImageI32(img, 1064) && v.superBlock.inodeSize == ImageI32(img, 1112)
    ensures forall g :: 0 <= g < GROUP_COUNT ==> v.groupDesc[g].tablePointer == ImageI32(img, 2048 + 32 * g + 8)
  {
    Volume(img, ReadSuperBlock(img), [ReadGroupDescriptor(img, 0), ReadGroupDescriptor(img, 1), ReadGroupDescriptor(img, 2)])
  }

  /** Volume.findInodePointer: the inode-table block of group g. */
  function FindInodePointer(v: Ext2Volume, g: int): int
    requires 0 <= g < GROUP_COUNT
  {
    v.groupDesc[g].tablePointer
  }

  /** Byte offset of record inodeNum (counted from 1) of the table at block inodePointer. */
  function InodeBase(v: Volume, inodePointer: int, inodeNum: int): int
  {
    BLOCK_SIZE * inodePointer + v.superBlock.inodeSize * (inodeNum - 1)
  }

  /** A field as the source reads it, toLong(getBytes(off, 4)) or
      toLong(getBytes(off, 2)): the short at `off`, or 0 before the start of
      the image (lemma `ReadPtrIsToLong`). */
  function ReadPtr(img: seq<Byte>, off: int): (r: int)
    ensures IsInt16(r)
  {
    if off < 0 then 0 else ImageI16(img, off)
  }

  /** Reading 4 bytes or 2 through toLong gives the same short: the two upper
      bytes of a "4-byte" field never matter. */
  lemma ReadPtrIsToLong(img: seq<Byte>, off: int)
    ensures ReadPtr(img, off) == ToLong(GetBytes(img, off, 4))
    ensures ReadPtr(img, off) == ToLong(GetBytes(img, off, 2))
  {
    BufferI16(img, off, 4, 0);
    BufferI16(img, off, 2, 0);
  }

  /** Volume.getFileMode: the short at +0 of the record. */
  function GetFileMode(v: Volume, inodePointer: int, inodeNum: int): (r: int)
    ensures r == ToLong(GetBytes(v.image, InodeBase(v, inodePointer, inodeNum), 2))
  {
    ReadPtrIsToLong(v.image, InodeBase(v, inodePointer, inodeNum));
    ReadPtr(v.image, InodeBase(v, inodePointer, inodeNum))
  }

  /** Volume.getUserID: the short at +2. */
  function GetUserId(v: Volume, inodePointer: int, inodeNum: int): (r: int)
    ensures r == ToLong(GetBytes(v.image, InodeBase(v, inodePointer, inodeNum) + 2, 2))
  {
    ReadPtrIsToLong(v.image, InodeBase(v, inodePointer, inodeNum) + 2);
    ReadPtr(v.image, InodeBase(v, inodePointer, inodeNum) + 2)
  }

  /** Volume.getGroupID: the short at +20. In the record layout that is the
      low half of the deletion time; the group id itself sits at +24. */
  function GetGroupId(v: Volume, inodePointer: int, inodeNum: int): (r: int)
    ensures r == ToLong(GetBytes(v.image, InodeBase(v, inodePointer, inodeNum) + 20, 2))
  {
    ReadPtrIsToLong(v.image, InodeBase(v, inodePointer, inodeNum) + 20);
    ReadPtr(v.image, InodeBase(v, inodePointer, inodeNum) + 20)
  }

  /** Volume.getHardLinks: the short at +26. */
  function GetHardLinks(v: Volume, inodePointer: int, inodeNum: int): (r: int)
    ensures r == ToLong(GetBytes(v.image, InodeBase(v, inodePointer, inodeNum) + 26, 2))
  {
    ReadPtrIsToLong(v.image, InodeBase(v, inodePointer, inodeNum) + 26);
    ReadPtr(v.image, InodeBase(v, inodePointer, inodeNum) + 26)
  }

  /** Volume.getModTime, as the seconds handed to `new Date(seconds * 1000)`:
      the int at +16 (the mask `0xFFFFFFFF` is the int -1 and keeps the sign). */
  function GetModTime(v: Volume, inodePointer: int, inodeNum: int): (r: int)
    ensures IsInt32(r)
  {
    var off := InodeBase(v, inodePointer, inodeNum) + 16;
    if off < 0 then 0 else ImageI32(v.image, off)
  }

  /** The source reads the time as `getInt` of a 4-byte getBytes buffer;
      that buffer holds the image's bytes at +16, or zeros before the start
      of the image. */
  lemma GetModTimeIsBufferRead(v: Volume, inodePointer: int, inodeNum: int)
    ensures GetModTime(v, inodePointer, inodeNum) == I32At(GetBytes(v.image, InodeBase(v, inodePointer, inodeNum) + 16, 4), 0)
  {
    BufferI32(v.image, InodeBase(v, inodePointer, inodeNum) + 16, 4, 0);
  }

  /** Volume.getFileSize: `(upper << 32) | (lower & 0xffffffffL)` with both
      halves read through toLong, so each is only a sign-extended short. */
  function GetFileSize(v: Volume, inodePointer: int, inodeNum: int): (r: int)
    ensures var base := InodeBase(v, inodePointer, inodeNum);
            var lower := if base + 4 < 0 then 0 else ImageI16(v.image, base + 4);
            var upper := if base + 108 < 0 then 0 else ImageI16(v.image, base + 108);
            r / 0x1_0000_0000 == upper && r % 0x1_0000_0000 == lower % 0x1_0000_0000
  {
    var base := InodeBase(v, inodePointer, inodeNum);
    var lower := ReadPtr(v.image, base + 4);
    var upper := ReadPtr(v.image, base + 108);
    Combine64Parts(upper, lower);
    Combine64(upper, lower)
  }

  /** What the size field of a record holding x (stored as 4 little-endian
      bytes, upper half 0) comes out as: x itself below 0x8000, otherwise
      its low 16 bits minus 0x10000, taken modulo 2^32. */
  lemma FileSizeOfStoredSize(v: Volume, inodePointer: int, inodeNum: int, x: int)
    requires 0 <= x < 0x1_0000_0000
    requires var base := InodeBase(v, inodePointer, inodeNum);
             0 <= base && base + 112 <= |v.image|
             && v.image[base + 4..base + 8] == Le32(x)
             && v.image[base + 108] == 0 && v.image[base + 109] == 0
    ensures x < 0x8000 ==> GetFileSize(v, inodePointer, inodeNum) == x
    ensures x % 0x1_0000 >= 0x8000 ==> GetFileSize(v, inodePointer, inodeNum) == 0x1_0000_0000 - 0x1_0000 + x % 0x1_0000
  {
    var base := InodeBase(v, inodePointer, inodeNum);
    var img := v.image;
    var bs := img[base + 4..base + 8];
    var lower := ImageI16(img, base + 4);
    var upper := ImageI16(img, base + 108);
    assert lower == ToLong(bs) by {
      assert bs[0] == img[base + 4] && bs[1] == img[base + 5];
    }
    ToLongOfLe32(x);
    assert upper == 0 by {
      assert At(img, base + 108) == 0 && At(img, base + 109) == 0;
    }
    FileSizeHalves(v, inodePointer, inodeNum);
    StoredSizeArith(x, lower);
  }

  lemma StoredSizeArith(x: int, lower: int)
    requires 0 <= x < 0x1_0000_0000 && lower == SignExtend16(x % 0x1_0000)
    ensures x < 0x8000 ==> Combine64(0, lower) == x
    ensures x % 0x1_0000 >= 0x8000 ==> Combine64(0, lower) == 0x1_0000_0000 - 0x1_0000 + x % 0x1_0000
  {
    Combine64ZeroUpper(lower);
  }

  /** Inside the image, the size is the combination of the two toLong halves. */
  lemma FileSizeHalves(v: Volume, inodePointer: int, inodeNum: int)
    requires InodeBase(v, inodePointer, inodeNum) >= 0
    ensures var base := InodeBase(v, inodePointer, inodeNum);
            GetFileSize(v, inodePointer, inodeNum) == Combine64(ImageI16(v.image, base + 108), ImageI16(v.image, base + 4))
  {
  }

  /** Volume.findDirectory: the first direct pointer (+40) of the record. */
  function FindDirectory(v: Volume, inodePointer: int, inodeNum: int): (r: int)
    ensures r == ToLong(GetBytes(v.image, InodeBase(v, inodePointer, inodeNum) + 40, 4))
  {
    ReadPtrIsToLong(v.image, InodeBase(v, inodePointer, inodeNum) + 40);
    ReadPtr(v.image, InodeBase(v, inodePointer, inodeNum) + 40)
  }

  /** Volume.readDirectory: toDirectory of the one block dirPointer names. */
  function ReadDirectory(v: Volume, dirPointer: int): (r: Result<TreeMap, DirFault>)
    ensures r.Ok? ==> Sorted(r.value)
  {
    ToDirectory(GetBytes(v.image, dirPointer * BLOCK_SIZE, BLOCK_SIZE))
  }

  /** The group adjustment of the path walks (Ext2File, Directory): compared
      as longs, with the local number narrowed back to an int. Returns the
      table pointer and the inode number within it; outside groups 1 and 2
      the previous pointer and number are kept. On three uniform groups
      this is the slot the uniform layout gives, except for n = 2 * ipg,
      which the strict comparisons leave where it was. */
  function SelectGroup(v: Ext2Volume, pointer: int, n: int): (r: (int, int))
    ensures var ipg := v.superBlock.inodesInGroup;
            0 < ipg < 0x4000_0000 && 1 <= n <= 3 * ipg && n != 2 * ipg ==>
              || (UniformSlot(ipg, n, 0, r.1) && r.0 == pointer)
              || (UniformSlot(ipg, n, 1, r.1) && r.0 == v.groupDesc[1].tablePointer)
              || (UniformSlot(ipg, n, 2, r.1) && r.0 == v.groupDesc[2].tablePointer)
    ensures var ipg := v.superBlock.inodesInGroup;
            0 < ipg < 0x4000_0000 && n == 2 * ipg ==> r == (pointer, n)
  {
    var ipg := v.superBlock.inodesInGroup;
    if n > ipg && n < ipg * 2 then (FindInodePointer(v, 1), ToInt32(n - ipg))
    else if n > 2 * ipg then
      ToInt32OfDifference(n, ipg * 2);
      (FindInodePointer(v, 2), ToInt32(n - ToInt32(ipg * 2)))
    else (pointer, n)
  }

  /** The three branches of the group choice, one clause each. */
  lemma SelectGroupCases(v: Ext2Volume, pointer: int, n: int)
    ensures var ipg := v.superBlock.inodesInGroup;
            && (ipg < n < 2 * ipg ==> SelectGroup(v, pointer, n) == (v.groupDesc[1].tablePointer, ToInt32(n - ipg)))
            && (n > 2 * ipg && !(ipg < n < 2 * ipg) ==>
                  SelectGroup(v, pointer, n) == (v.groupDesc[2].tablePointer, ToInt32(n - ToInt32(2 * ipg))))
            && (n <= 2 * ipg && !(ipg < n < 2 * ipg) ==> SelectGroup(v, pointer, n) == (pointer, n))
  {
  }

  /** The record the nested Inode constructor decodes. */
  datatype InodeRecord = InodeRecord(
    fileMode: int, userId: int, fileSizeLow: int,
    accessTime: int, creationTime: int, modifiedTime: int, deletedTime: int,
    groupId: int, numOfLinks: int, directPointers: seq<int>,
    indirect: int, doubleIndirect: int, tripleIndirect: int,
    fileSizeUp: int, fileSize: int)

  /** Java exceptions of the nested decoder: `new byte[inodeSize]` with a
      negative size, and a buffer underflow when the record is shorter than
      the 112 bytes the decoder reads. */
  datatype InodeFault = NegativeRecordSize | RecordUnderflow

  /** The group choice of the nested Inode constructor: `2 * inodesInGroup`
      is an int product here, so it is narrowed before the comparison.
      Returns the group index and the number within the group. */
  function LocateInode(ipg: int, inodeNum: int): (r: (int, int))
    ensures 0 <= r.0 < GROUP_COUNT
  {
    var twice := ToInt32(ipg * 2);
    if inodeNum > ipg && inodeNum < twice then (1, inodeNum - ipg)
    else if inodeNum > twice then (2, inodeNum - twice)
    else (0, inodeNum)
  }

  /** Record n lies in group g at local number local under the uniform layout
      (inodes 1..ipg in group 0, the next ipg in group 1, and so on). */
  predicate UniformSlot(ipg: int, n: int, g: int, local: int)
  {
    g * ipg < n <= (g + 1) * ipg && local == n - g * ipg
  }

  /** For the inodes of three uniform groups, the hard-coded mapping agrees
      with the uniform layout for every inode except n = 2 * ipg, which it
      leaves in group 0 unchanged. */
  lemma LocateInodeVersusLayout(ipg: int, n: int)
    requires 0 < ipg < 0x4000_0000 && 1 <= n <= 3 * ipg
    ensures UniformSlot(ipg, n, LocateInode(ipg, n).0, LocateInode(ipg, n).1) <==> n != 2 * ipg
    ensures n == 2 * ipg ==> LocateInode(ipg, n) == (0, n)
  {
  }

  /** For a positive inodes-per-group count below 2^30 and an int inode number,
      the path walks' adjustment from group 0 picks the same table and local
      number as the nested decoder. */
  lemma SelectGroupAgreesWithLocate(v: Ext2Volume, n: int)
    requires 0 < v.superBlock.inodesInGroup < 0x4000_0000 && IsInt32(n)
    ensures var (g, local) := LocateInode(v.superBlock.inodesInGroup, n);
            SelectGroup(v, v.groupDesc[0].tablePointer, n) == (v.groupDesc[g].tablePointer, local)
  {
  }

  /** The record at table inodePointer, number inodeNum, read field by field
      from a buffer of inodeSize bytes (the layout is stated by the lemmas below). */
  function DecodeInodeRecord(v: Volume, inodePointer: int, inodeNum: int): (r: Result<InodeRecord, InodeFault>)
    ensures r.Err? <==> v.superBlock.inodeSize < INODE_RECORD_READ
    ensures r.Err? ==> r.error == (if v.superBlock.inodeSize < 0 then NegativeRecordSize else RecordUnderflow)
    ensures r.Ok? ==> |r.value.directPointers| == 12
  {
    var size := v.superBlock.inodeSize;
    if size < 0 then Err(NegativeRecordSize)
    else if size < INODE_RECORD_READ then Err(RecordUnderflow)
    else Ok(DecodeRecord(RecordBuffer(v, inodePointer, inodeNum)))
  }

  /** The sequential ByteBuffer reads of the nested decoder over one record. */
  function DecodeRecord(buffer: seq<Byte>): (rec: InodeRecord)
    requires |buffer| >= INODE_RECORD_READ
    ensures |rec.directPointers| == 12
  {
    var low := I32At(buffer, 4);
    var up := I32At(buffer, 108);
    InodeRecord(
      I16At(buffer, 0), I16At(buffer, 2), low,
      I32At(buffer, 8), I32At(buffer, 12), I32At(buffer, 16), I32At(buffer, 20),
      I16At(buffer, 24), I16At(buffer, 26),
      DirectPointers(buffer),
      I32At(buffer, 88), I32At(buffer, 92), I32At(buffer, 96),
      up, Combine64(up, low))
  }

  /** The twelve direct block pointers, ints from offset 40 of the record. */
  function DirectPointers(buffer: seq<Byte>): (r: seq<int>)
    requires |buffer| >= INODE_RECORD_READ
    ensures |r| == 12
    ensures forall i :: 0 <= i < 12 ==> r[i] == I32At(buffer, 40 + 4 * i)
  {
    seq(12, i requires 0 <= i < 12 => I32At(buffer, 40 + 4 * i))
  }

  /** The decoder's 64-bit size has the upper int as its high half and the
      bits of the lower int as its low half. */
  lemma RecordFileSize(v: Volume, inodePointer: int, inodeNum: int)
    requires DecodeInodeRecord(v, inodePointer, inodeNum).Ok?
    ensures var rec := DecodeInodeRecord(v, inodePointer, inodeNum).value;
            && rec.fileSize / 0x1_0000_0000 == rec.fileSizeUp
            && rec.fileSize % 0x1_0000_0000 == rec.fileSizeLow % 0x1_0000_0000
  {
    var rec := DecodeInodeRecord(v, inodePointer, inodeNum).value;
    Combine64Parts(rec.fileSizeUp, rec.fileSizeLow);
  }

  /** The inodeSize bytes of the record, as getBytes returns them. */
  function RecordBuffer(v: Volume, inodePointer: int, inodeNum: int): (b: seq<Byte>)
    requires v.superBlock.inodeSize >= 0
    ensures |b| == v.superBlock.inodeSize
  {
    GetBytes(v.image, InodeBase(v, inodePointer, inodeNum), v.superBlock.inodeSize)
  }

  /** The header of a decoded record: mode at 0, uid at 2, low size at 4, the
      four timestamps at 8..23, gid at 24 and links at 26, read sequentially. */
  lemma InodeRecordHeader(v: Volume, inodePointer: int, inodeNum: int)
    requires DecodeInodeRecord(v, inodePointer, inodeNum).Ok?
    requires InodeBase(v, inodePointer, inodeNum) >= 0
    ensures var base := InodeBase(v, inodePointer, inodeNum);
            var img := v.image;
            var rec := DecodeInodeRecord(v, inodePointer, inodeNum).value;
            && rec.fileMode == ImageI16(img, base) && rec.userId == ImageI16(img, base + 2)
            && rec.fileSizeLow == ImageI32(img, base + 4)
            && rec.accessTime == ImageI32(img, base + 8) && rec.creationTime == ImageI32(img, base + 12)
            && rec.modifiedTime == ImageI32(img, base + 16) && rec.deletedTime == ImageI32(img, base + 20)
            && rec.groupId == ImageI16(img, base + 24) && rec.numOfLinks == ImageI16(img, base + 26)
  {
    HeaderAt(v.image, InodeBase(v, inodePointer, inodeNum), v.superBlock.inodeSize);
  }

  lemma HeaderAt(img: seq<Byte>, start: int, size: int)
    requires 0 <= start && INODE_RECORD_READ <= size
    ensures var rec := DecodeRecord(GetBytes(img, start, size));
            && rec.fileMode == ImageI16(img, start) && rec.userId == ImageI16(img, start + 2)
            && rec.fileSizeLow == ImageI32(img, start + 4)
            && rec.accessTime == ImageI32(img, start + 8) && rec.creationTime == ImageI32(img, start + 12)
            && rec.modifiedTime == ImageI32(img, start + 16) && rec.deletedTime == ImageI32(img, start + 20)
            && rec.groupId == ImageI16(img, start + 24) && rec.numOfLinks == ImageI16(img, start + 26)
  {
    BufferI16(img, start, size, 0);
    BufferI16(img, start, size, 2);
    BufferI32(img, start, size, 4);
    BufferI32(img, start, size, 8);
    BufferI32(img, start, size, 12);
    BufferI32(img, start, size, 16);
    BufferI32(img, start, size, 20);
    BufferI16(img, start, size, 24);
    BufferI16(img, start, size, 26);
  }

  /** The direct pointers of a decoded record: 12 ints from offset 40, after
      the 12-byte gap that follows the link count. */
  lemma InodeRecordDirect(v: Volume, inodePointer: int, inodeNum: int)
    requires DecodeInodeRecord(v, inodePointer, inodeNum).Ok?
    requires InodeBase(v, inodePointer, inodeNum) >= 0
    ensures var base := InodeBase(v, inodePointer, inodeNum);
            var rec := DecodeInodeRecord(v, inodePointer, inodeNum).value;
            forall i :: 0 <= i < 12 ==> rec.directPointers[i] == ImageI32(v.image, base + 40 + 4 * i)
  {
    DirectAt(v.image, InodeBase(v, inodePointer, inodeNum), v.superBlock.inodeSize);
  }

  lemma DirectAt(img: seq<Byte>, start: int, size: int)
    requires 0 <= start && INODE_RECORD_READ <= size
    ensures var rec := DecodeRecord(GetBytes(img, start, size));
            forall i :: 0 <= i < 12 ==> rec.directPointers[i] == ImageI32(img, start + 40 + 4 * i)
  {
    var b := GetBytes(img, start, size);
    forall i | 0 <= i < 12
      ensures DirectPointers(b)[i] == ImageI32(img, start + 40 + 4 * i)
    {
      BufferI32(img, start, size, 40 + 4 * i);
    }
  }

  /** The remaining pointers of a decoded record: indirect at 88, double at
      92, triple at 96, and the upper size at 108, after the 8-byte gap. */
  lemma InodeRecordIndirect(v: Volume, inodePointer: int, inodeNum: int)
    requires DecodeInodeRecord(v, inodePointer, inodeNum).Ok?
    requires InodeBase(v, inodePointer, inodeNum) >= 0
    ensures var base := InodeBase(v, inodePointer, inodeNum);
            var img := v.image;
            var rec := DecodeInodeRecord(v, inodePointer, inodeNum).value;
            && rec.indirect == ImageI32(img, base + 88) && rec.doubleIndirect == ImageI32(img, base + 92)
            && rec.tripleIndirect == ImageI32(img, base + 96) && rec.fileSizeUp == ImageI32(img, base + 108)
  {
    IndirectAt(v.image, InodeBase(v, inodePointer, inodeNum), v.superBlock.inodeSize);
  }

  lemma IndirectAt(img: seq<Byte>, start: int, size: int)
    requires 0 <= start && INODE_RECORD_READ <= size
    ensures var rec := DecodeRecord(GetBytes(img, start, size));
            && rec.indirect == ImageI32(img, start + 88) && rec.doubleIndirect == ImageI32(img, start + 92)
            && rec.tripleIndirect == ImageI32(img, start + 96) && rec.fileSizeUp == ImageI32(img, start + 108)
  {
    BufferI32(img, start, size, 88);
    BufferI32(img, start, size, 92);
    BufferI32(img, start, size, 96);
    BufferI32(img, start, size, 108);
  }

  /** A record that starts before byte 0 of the image reads as all zeros,
      since the failed seek leaves the buffer untouched. */
  lemma InodeRecordBeforeImage(v: Volume, inodePointer: int, inodeNum: int)
    requires DecodeInodeRecord(v, inodePointer, inodeNum).Ok?
    requires InodeBase(v, inodePointer, inodeNum) < 0
    ensures DecodeInodeRecord(v, inodePointer, inodeNum).value == ZERO_RECORD
  {
    var b := RecordBuffer(v, inodePointer, inodeNum);
    assert forall i :: 0 <= i < |b| ==> b[i] == 0;
    ZeroBufferDecodes(b);
  }

  /** Every field 0, and twelve zero direct pointers. */
  const ZERO_RECORD := InodeRecord(0, 0, 0, 0, 0, 0, 0, 0, 0, seq(12, i => 0), 0, 0, 0, 0, 0)

  /** A buffer of zero bytes decodes to the all-zero record. */
  lemma ZeroBufferDecodes(b: seq<Byte>)
    requires |b| >= INODE_RECORD_READ
    requires forall i :: 0 <= i < |b| ==> b[i] == 0
    ensures DecodeRecord(b) == ZERO_RECORD
  {
    var rec := DecodeRecord(b);
    assert rec.directPointers == seq(12, i => 0) by {
      forall i | 0 <= i < 12
        ensures rec.directPointers[i] == 0
      {
        ZeroI32(b, 40 + 4 * i);
      }
    }
    ZeroI16(b, 0);
    ZeroI16(b, 2);
    ZeroI32(b, 4);
    ZeroI32(b, 8);
    ZeroI32(b, 12);
    ZeroI32(b, 16);
    ZeroI32(b, 20);
    ZeroI16(b, 24);
    ZeroI16(b, 26);
    ZeroI32(b, 88);
    ZeroI32(b, 92);
    ZeroI32(b, 96);
    ZeroI32(b, 108);
    Combine64ZeroUpper(0);
  }

  lemma ZeroI16(b: seq<Byte>, off: int)
    requires 0 <= off && off + 2 <= |b| && b[off] == 0 && b[off + 1] == 0
    ensures I16At(b, off) == 0
  {
  }

  lemma ZeroI32(b: seq<Byte>, off: int)
    requires 0 <= off && off + 4 <= |b| && b[off] == 0 && b[off + 1] == 0 && b[off + 2] == 0 && b[off + 3] == 0
    ensures I32At(b, off) == 0
  {
  }

  /** The nested `Inode(long inodeNum)` constructor: pick the group, then decode. */
  function InodeOf(v: Ext2Volume, inodeNum: int): Result<InodeRecord, InodeFault>
  {
    var (g, local) := LocateInode(v.superBlock.inodesInGroup, inodeNum);
    DecodeInodeRecord(v, v.groupDesc[g].tablePointer, local)
  }

  /** The low 16 bits of an int are the first two of its four little-endian octets. */
  lemma LowHalfOfInt(d: int, b0: Byte, b1: Byte, b2: Byte, b3: Byte)
    requires d % 0x1_0000_0000 == U32(b0, b1, b2, b3)
    ensures d % 0x1_0000 == U16(b0, b1)
  {
    var q := d / 0x1_0000_0000;
    assert d == 0x1_0000_0000 * q + U32(b0, b1, b2, b3);
    assert d == 0x1_0000 * (0x1_0000 * q + U16(b2, b3)) + U16(b0, b1);
    ModOfSplit16(d, 0x1_0000 * q + U16(b2, b3), U16(b0, b1));
  }

  /** The per-field readers and the nested decoder agree on mode, uid, link
      count and modification time; the readers' "group id" is the low half of
      the decoder's deletion time, not its group id. */
  lemma ReadersVersusRecord(v: Volume, inodePointer: int, inodeNum: int)
    requires InodeBase(v, inodePointer, inodeNum) >= 0
    requires DecodeInodeRecord(v, inodePointer, inodeNum).Ok?
    ensures var rec := DecodeInodeRecord(v, inodePointer, inodeNum).value;
            && GetFileMode(v, inodePointer, inodeNum) == rec.fileMode
            && GetUserId(v, inodePointer, inodeNum) == rec.userId
            && GetHardLinks(v, inodePointer, inodeNum) == rec.numOfLinks
            && GetModTime(v, inodePointer, inodeNum) == rec.modifiedTime
            && GetGroupId(v, inodePointer, inodeNum) == SignExtend16(rec.deletedTime % 0x1_0000)
  {
    RecordVersusShorts(v, inodePointer, inodeNum);
  }

  /** The decoded fields against the shorts the readers fetch. */
  lemma RecordVersusShorts(v: Volume, inodePointer: int, inodeNum: int)
    requires InodeBase(v, inodePointer, inodeNum) >= 0
    requires DecodeInodeRecord(v, inodePointer, inodeNum).Ok?
    ensures var base := InodeBase(v, inodePointer, inodeNum);
            var rec := DecodeInodeRecord(v, inodePointer, inodeNum).value;
            && ReadPtr(v.image, base) == rec.fileMode
            && ReadPtr(v.image, base + 2) == rec.userId
            && ReadPtr(v.image, base + 26) == rec.numOfLinks
            && ImageI32(v.image, base + 16) == rec.modifiedTime
            && ReadPtr(v.image, base + 20) == SignExtend16(rec.deletedTime % 0x1_0000)
  {
    var base := InodeBase(v, inodePointer, inodeNum);
    var img := v.image;
    InodeRecordHeader(v, inodePointer, inodeNum);
    var rec := DecodeInodeRecord(v, inodePointer, inodeNum).value;
    Signed32IsNarrowing(U32(At(img, base + 20), At(img, base + 21), At(img, base + 22), At(img, base + 23)));
    LowHalfOfInt(rec.deletedTime, At(img, base + 20), At(img, base + 21), At(img, base + 22), At(img, base + 23));
  }

  /** Java exceptions of the Volume constructor's eager inode loop:
      `new Inode[inodesInSys]` with a negative count, or the first decoded
      inode failing. */
  datatype MountFault = NegativeInodeCount | BadInode(fault: InodeFault)

  /** The Volume constructor with its loop that decodes inodes 0 .. inodesInSys-1.
      Whether a decode fails depends on the record size alone, so the loop
      either fails on its first inode or not at all. */
  function Mount(img: seq<Byte>): (r: Result<Ext2Volume, MountFault>)
    ensures r.Ok? ==> r.value == Open(img)
    ensures r.Err? <==> ImageI32(img, 1024) < 0 || (ImageI32(img, 1024) > 0 && ImageI32(img, 1112) < INODE_RECORD_READ)
    ensures r.Err? && ImageI32(img, 1024) >= 0 ==> r.error == BadInode(if ImageI32(img, 1112) < 0 then NegativeRecordSize else RecordUnderflow)
  {
    var v := Open(img);
    if v.superBlock.inodesInSys < 0 then Err(NegativeInodeCount)
    else if v.superBlock.inodesInSys == 0 then Ok(v)
    else
      match InodeOf(v, 0)
      case Err(f) => Err(BadInode(f))
      case Ok(_) => Ok(v)
  }

  /** Every inode number fails or succeeds together with inode 0. */
  lemma InodeFaultUniform(v: Ext2Volume, n: int)
    ensures InodeOf(v, n).Err? <==> InodeOf(v, 0).Err?
    ensures InodeOf(v, n).Err? ==> InodeOf(v, n).error == InodeOf(v, 0).error
  {
  }

  /** A volume that mounts decodes every inode its constructor loop visits. */
  lemma MountDecodesEveryInode(img: seq<Byte>, n: int)
    requires Mount(img).Ok?
    requires 0 <= n < Mount(img).value.superBlock.inodesInSys
    ensures InodeOf(Mount(img).value, n).Ok?
  {
    InodeFaultUniform(Open(img), n);
  }
}
