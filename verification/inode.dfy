/** Inode.java: the top-level inode decoder. It reads the same header as the
    decoder nested in Volume.java, but its direct-pointer loop walks an
    empty list, so it reads no direct pointer and every later field comes
    from 48 bytes earlier in the record. */
module Inodes {
  import opened Bytes
  import opened Results
  import opened Volumes

  /** Bytes this decoder consumes: the last field read, the upper size,
      ends at offset 64. */
  const SHORT_RECORD_READ := 64

  /** The sequential ByteBuffer reads of `Inode(Volume, long, long)` over one
      record: header, a 12-byte gap, no direct pointers, three ints, an
      8-byte gap, the upper size. */
  function DecodeShort(buffer: seq<Byte>): (rec: InodeRecord)
    requires |buffer| >= SHORT_RECORD_READ
    ensures rec.directPointers == []
    ensures IsInt32(rec.indirect) && IsInt32(rec.doubleIndirect) && IsInt32(rec.tripleIndirect)
  {
    var low := I32At(buffer, 4);
    var up := I32At(buffer, 60);
    InodeRecord(
      I16At(buffer, 0), I16At(buffer, 2), low,
      I32At(buffer, 8), I32At(buffer, 12), I32At(buffer, 16), I32At(buffer, 20),
      I16At(buffer, 24), I16At(buffer, 26),
      [],
      I32At(buffer, 40), I32At(buffer, 44), I32At(buffer, 48),
      up, Combine64(up, low))
  }

  /** The constructor: a buffer of inodeSize bytes at the record's offset,
      then the reads. A negative size fails the array allocation; a record
      shorter than 64 bytes ends inside a read or a skip. */
  function DecodeInode(v: Volume, inodePointer: int, inodeNum: int): (r: Result<InodeRecord, InodeFault>)
    ensures r.Ok? ==> v.superBlock.inodeSize >= SHORT_RECORD_READ && r.value.directPointers == []
    ensures r.Err? ==> v.superBlock.inodeSize < SHORT_RECORD_READ
  {
    var size := v.superBlock.inodeSize;
    if size < 0 then Err(NegativeRecordSize)
    else if size < SHORT_RECORD_READ then Err(RecordUnderflow)
    else Ok(DecodeShort(RecordBuffer(v, inodePointer, inodeNum)))
  }

  /** The faults, in the order the source meets them: the allocation before
      any read. */
  lemma DecodeInodeFaults(v: Volume, inodePointer: int, inodeNum: int)
    ensures DecodeInode(v, inodePointer, inodeNum).Err? <==> v.superBlock.inodeSize < SHORT_RECORD_READ
    ensures v.superBlock.inodeSize < 0 ==> DecodeInode(v, inodePointer, inodeNum) == Err(NegativeRecordSize)
    ensures 0 <= v.superBlock.inodeSize < SHORT_RECORD_READ ==> DecodeInode(v, inodePointer, inodeNum) == Err(RecordUnderflow)
  {
  }

  /** Where each field comes from in the image: the header as in the nested
      decoder, but indirect, double and triple at +40, +44, +48 (the first
      three direct slots) and the upper size at +60 (the sixth direct slot). */
  lemma DecodeInodeLayout(v: Volume, inodePointer: int, inodeNum: int)
    requires DecodeInode(v, inodePointer, inodeNum).Ok?
    requires InodeBase(v, inodePointer, inodeNum) >= 0
    ensures var base := InodeBase(v, inodePointer, inodeNum);
            var img := v.image;
            var rec := DecodeInode(v, inodePointer, inodeNum).value;
            && rec.fileMode == ImageI16(img, base) && rec.userId == ImageI16(img, base + 2)
            && rec.fileSizeLow == ImageI32(img, base + 4)
            && rec.modifiedTime == ImageI32(img, base + 16)
            && rec.groupId == ImageI16(img, base + 24) && rec.numOfLinks == ImageI16(img, base + 26)
            && rec.indirect == ImageI32(img, base + 40) && rec.doubleIndirect == ImageI32(img, base + 44)
            && rec.tripleIndirect == ImageI32(img, base + 48) && rec.fileSizeUp == ImageI32(img, base + 60)
  {
    ShortAt(v.image, InodeBase(v, inodePointer, inodeNum), v.superBlock.inodeSize);
  }

  lemma ShortAt(img: seq<Byte>, start: int, size: int)
    requires 0 <= start && SHORT_RECORD_READ <= size
    ensures var rec := DecodeShort(GetBytes(img, start, size));
            && rec.fileMode == ImageI16(img, start) && rec.userId == ImageI16(img, start + 2)
            && rec.fileSizeLow == ImageI32(img, start + 4)
            && rec.modifiedTime == ImageI32(img, start + 16)
            && rec.groupId == ImageI16(img, start + 24) && rec.numOfLinks == ImageI16(img, start + 26)
            && rec.indirect == ImageI32(img, start + 40) && rec.doubleIndirect == ImageI32(img, start + 44)
            && rec.tripleIndirect == ImageI32(img, start + 48) && rec.fileSizeUp == ImageI32(img, start + 60)
  {
    BufferI16(img, start, size, 0);
    BufferI16(img, start, size, 2);
    BufferI32(img, start, size, 4);
    BufferI32(img, start, size, 16);
    BufferI16(img, start, size, 24);
    BufferI16(img, start, size, 26);
    BufferI32(img, start, size, 40);
    BufferI32(img, start, size, 44);
    BufferI32(img, start, size, 48);
    BufferI32(img, start, size, 60);
  }

  /** Against the nested decoder on the same record of 112 bytes or more:
      the header agrees; the three indirect pointers are the nested
      decoder's direct slots 0, 1 and 2; the upper size is its slot 5, and
      the 64-bit size is built from that slot. */
  lemma ShortVersusNested(buffer: seq<Byte>)
    requires |buffer| >= INODE_RECORD_READ
    ensures var s := DecodeShort(buffer);
            var n := DecodeRecord(buffer);
            && s.fileMode == n.fileMode && s.userId == n.userId && s.fileSizeLow == n.fileSizeLow
            && s.accessTime == n.accessTime && s.creationTime == n.creationTime
            && s.modifiedTime == n.modifiedTime && s.deletedTime == n.deletedTime
            && s.groupId == n.groupId && s.numOfLinks == n.numOfLinks
            && s.directPointers == [] && |n.directPointers| == 12
            && s.indirect == n.directPointers[0] && s.doubleIndirect == n.directPointers[1]
            && s.tripleIndirect == n.directPointers[2] && s.fileSizeUp == n.directPointers[5]
            && s.fileSize == Combine64(n.directPointers[5], n.fileSizeLow)
  {
  }

  /** Every record the nested decoder accepts, this one accepts too, with the
      same header fields. */
  lemma NestedOkImpliesShortOk(v: Volume, inodePointer: int, inodeNum: int)
    requires DecodeInodeRecord(v, inodePointer, inodeNum).Ok?
    ensures DecodeInode(v, inodePointer, inodeNum).Ok?
    ensures DecodeInode(v, inodePointer, inodeNum).value.fileMode == DecodeInodeRecord(v, inodePointer, inodeNum).value.fileMode
    ensures DecodeInode(v, inodePointer, inodeNum).value.indirect == DecodeInodeRecord(v, inodePointer, inodeNum).value.directPointers[0]
  {
    ShortVersusNested(RecordBuffer(v, inodePointer, inodeNum));
  }

  /** The 64-bit size: the upper int is the high half and the bits of the
      lower int the low half. */
  lemma DecodeInodeFileSize(v: Volume, inodePointer: int, inodeNum: int)
    requires DecodeInode(v, inodePointer, inodeNum).Ok?
    ensures var rec := DecodeInode(v, inodePointer, inodeNum).value;
            && rec.fileSize / 0x1_0000_0000 == rec.fileSizeUp
            && rec.fileSize % 0x1_0000_0000 == rec.fileSizeLow % 0x1_0000_0000
  {
    var rec := DecodeInode(v, inodePointer, inodeNum).value;
    Combine64Parts(rec.fileSizeUp, rec.fileSizeLow);
  }
}
