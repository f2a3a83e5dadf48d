/** Ext2File.java: find a regular file by path, copy its blocks into one
    in-memory buffer, and read from that buffer by offset or at a cursor. */
module Ext2Files {
  import opened Bytes
  import opened Results
  import opened TreeMaps
  import opened Helper
  import opened Volumes
  import opened Pointers
  import opened Paths

  // ---------------------------------------------------------------------
  // The path walk

  /** The iteration over a map's entries that replaces `nextInode` with the
      value of every entry whose key equals `name`, in entry order. */
  function MatchEntries(m: TreeMap, name: string, n: int): int
    decreases |m|
  {
    if m == [] then n
    else MatchEntries(m[1..], name, if m[0].0 == name then m[0].1 else n)
  }

  /** The value stored under `name`, or `n` when there is none. */
  function GetOr(m: TreeMap, name: string, n: int): int
  {
    match Get(m, name)
    case Some(x) => x
    case None => n
  }

  lemma {:induction false} MatchEntriesAbsent(m: TreeMap, name: string, n: int)
    requires forall i :: 0 <= i < |m| ==> m[i].0 != name
    ensures MatchEntries(m, name, n) == n
    decreases |m|
  {
    if m != [] {
      assert forall i :: 0 <= i < |m[1..]| ==> m[1..][i] == m[i + 1];
      MatchEntriesAbsent(m[1..], name, n);
    }
  }

  /** Keys of a sorted map never repeat, so scanning every entry finds the
      same value as a lookup. */
  lemma {:induction false} MatchEntriesIsGet(m: TreeMap, name: string, n: int)
    requires Sorted(m)
    ensures MatchEntries(m, name, n) == GetOr(m, name, n)
    decreases |m|
  {
    if m != [] {
      if m[0].0 == name {
        forall i | 0 <= i < |m[1..]|
          ensures m[1..][i].0 != name
        {
          SortedStrictly(m, 0, i + 1);
        }
        MatchEntriesAbsent(m[1..], name, m[0].1);
      } else {
        MatchEntriesIsGet(m[1..], name, n);
      }
    }
  }

  /** The variables of the walk: `nextInode`, `pointer` and `directory`. */
  datatype WalkState = WalkState(inode: int, pointer: int, directory: int)

  /** The inode numbers for which the walk moves to the table of group 1 or
      group 2 (and only then re-reads the directory pointer). */
  predicate Switches(v: Ext2Volume, n: int)
  {
    var ipg := v.superBlock.inodesInGroup;
    (n > ipg && n < ipg * 2) || n > 2 * ipg
  }

  /** The walk starts at the root inode of the group-0 table. */
  function Start(v: Ext2Volume): WalkState
  {
    var pointer := FindInodePointer(v, 0);
    WalkState(ROOT_INODE, pointer, FindDirectory(v, pointer, ROOT_INODE))
  }

  /** One pass of the loop over the path: read the current directory block,
      take the inode listed under `name` (if any), then move to another
      group's table when that inode lies beyond group 0. */
  function WalkStep(v: Ext2Volume, st: WalkState, name: string): (r: Result<WalkState, DirFault>)
    ensures ReadDirectory(v, st.directory).Err? ==> r == Err(ReadDirectory(v, st.directory).error)
    ensures ReadDirectory(v, st.directory).Ok? ==>
              var n := GetOr(ReadDirectory(v, st.directory).value, name, st.inode);
              && r.Ok?
              && (r.value.pointer, r.value.inode) == SelectGroup(v, st.pointer, n)
              && r.value.directory == (if Switches(v, n) then FindDirectory(v, r.value.pointer, r.value.inode) else st.directory)
  {
    match ReadDirectory(v, st.directory)
    case Err(f) => Err(f)
    case Ok(m) =>
      MatchEntriesIsGet(m, name, st.inode);
      var n := MatchEntries(m, name, st.inode);
      var (p, k) := SelectGroup(v, st.pointer, n);
      Ok(WalkState(k, p, if Switches(v, n) then FindDirectory(v, p, k) else st.directory))
  }

  /** The loop over all path components; the first fault ends it. */
  function Walk(v: Ext2Volume, st: WalkState, names: seq<string>): Result<WalkState, DirFault>
    decreases |names|
  {
    if names == [] then Ok(st)
    else
      match WalkStep(v, st, names[0])
      case Err(f) => Err(f)
      case Ok(s) => Walk(v, s, names[1..])
  }

  /** Walking a + b is walking a, then walking b from where a ended. */
  lemma {:induction false} WalkAppend(v: Ext2Volume, st: WalkState, a: seq<string>, b: seq<string>)
    ensures Walk(v, st, a + b) == match Walk(v, st, a) case Err(f) => Err(f) case Ok(s) => Walk(v, s, b)
    decreases |a|
  {
    if a == [] {
      assert a + b == b;
    } else {
      assert (a + b)[0] == a[0] && (a + b)[1..] == a[1..] + b;
      match WalkStep(v, st, a[0])
      case Err(f) =>
      case Ok(s) => WalkAppend(v, s, a[1..], b);
    }
  }

  /** A name the directory does not list changes nothing when the current
      inode is one of group 0's. */
  lemma AbsentNameKeepsState(v: Ext2Volume, st: WalkState, name: string)
    requires ReadDirectory(v, st.directory).Ok?
    requires Get(ReadDirectory(v, st.directory).value, name) == None
    requires !Switches(v, st.inode)
    ensures WalkStep(v, st, name) == Ok(st)
  {
  }

  /** A match on an inode of group 0 moves the inode but keeps the
      directory block, so the next component is looked up in the same block
      as this one. */
  lemma GroupZeroMatchKeepsDirectory(v: Ext2Volume, st: WalkState, name: string, n: int)
    requires ReadDirectory(v, st.directory).Ok?
    requires Get(ReadDirectory(v, st.directory).value, name) == Some(n)
    requires !Switches(v, n)
    ensures WalkStep(v, st, name) == Ok(WalkState(n, st.pointer, st.directory))
  {
  }

  /** The while loop over the map's entry set. */
  method MatchName(m: TreeMap, name: string, n0: int) returns (n: int)
    ensures n == MatchEntries(m, name, n0)
  {
    n := n0;
    var j := 0;
    while j < |m|
      invariant 0 <= j <= |m|
      invariant MatchEntries(m, name, n0) == MatchEntries(m[j..], name, n)
    {
      if m[j].0 == name {
        n := m[j].1;
      }
      assert m[j..][1..] == m[j + 1..];
      j := j + 1;
    }
  }

  /** A step over a block that parses: the scan's inode, then the group choice. */
  lemma WalkStepOk(v: Ext2Volume, st: WalkState, name: string, m: TreeMap)
    requires ReadDirectory(v, st.directory) == Ok(m)
    ensures var n := MatchEntries(m, name, st.inode);
            var pk := SelectGroup(v, st.pointer, n);
            WalkStep(v, st, name) == Ok(WalkState(pk.1, pk.0, if Switches(v, n) then FindDirectory(v, pk.0, pk.1) else st.directory))
  {
  }

  /** One pass of the for loop over the path components. */
  method WalkOnce(v: Ext2Volume, st: WalkState, name: string) returns (r: Result<WalkState, DirFault>)
    ensures r == WalkStep(v, st, name)
  {
    var listing := ReadDirectory(v, st.directory);
    if listing.Err? {
      return Err(listing.error);
    }
    var n := MatchName(listing.value, name, st.inode);
    WalkStepOk(v, st, name, listing.value);
    SelectGroupCases(v, st.pointer, n);
    ghost var pk := SelectGroup(v, st.pointer, n);
    var pointer := st.pointer;
    var directory := st.directory;
    var ipg := v.superBlock.inodesInGroup;
    if n > ipg && n < ipg * 2 {
      pointer := FindInodePointer(v, 1);
      n := ToInt32(n - ipg);
      directory := FindDirectory(v, pointer, n);
    } else if n > 2 * ipg {
      pointer := FindInodePointer(v, 2);
      n := ToInt32(n - ToInt32(ipg * 2));
      directory := FindDirectory(v, pointer, n);
    }
    r := Ok(WalkState(n, pointer, directory));
  }

  /** A walk over at least one name begins with one step. */
  lemma WalkFirst(v: Ext2Volume, st: WalkState, names: seq<string>)
    requires names != []
    ensures Walk(v, st, names) == match WalkStep(v, st, names[0]) case Err(f) => Err(f) case Ok(s) => Walk(v, s, names[1..])
  {
  }

  /** The walk of PathHelper.getBytes over the split path. */
  method WalkPath(v: Ext2Volume, names: seq<string>) returns (r: Result<WalkState, DirFault>)
    ensures r == Walk(v, Start(v), names)
  {
    var st := WalkState(ROOT_INODE, FindInodePointer(v, 0), FindDirectory(v, FindInodePointer(v, 0), ROOT_INODE));
    var i := 0;
    while i < |names|
      invariant 0 <= i <= |names|
      invariant Walk(v, Start(v), names) == Walk(v, st, names[i..])
    {
      var next := WalkOnce(v, st, names[i]);
      WalkFirst(v, st, names[i..]);
      assert names[i..][0] == names[i] && names[i..][1..] == names[i + 1..];
      if next.Err? {
        return Err(next.error);
      }
      st := next.value;
      i := i + 1;
    }
    r := Ok(st);
  }

  // ---------------------------------------------------------------------
  // The file buffer

  /** The fields of an opened file: `size` from the inode, `actualSize` as
      the assembly sets it, the ByteBuffer's contents (its capacity is its
      length, and its limit stays at the capacity) and its position. */
  datatype Ext2File = Ext2File(size: int, actualSize: int, buffer: seq<Byte>, position: int)

  /** What every assembled file satisfies: the cursor and the readable
      length lie inside an int-sized buffer. */
  predicate Valid(f: Ext2File)
  {
    && |f.buffer| < 0x8000_0000
    && 0 <= f.position <= |f.buffer|
    && 0 <= f.actualSize <= |f.buffer|
  }

  /** Java exceptions of the assembly: a path fault from a directory block,
      `ByteBuffer.allocate` of a negative capacity, and a `put` past the
      capacity. */
  datatype FileFault = PathFault(fault: DirFault) | NegativeCapacity | Overflow

  /** `(int) ((size / 1024) * 1024 + 1024)` with long division. */
  function Capacity(size: int): (r: int)
    ensures IsInt32(r) && r % 1024 == 0
  {
    var x := JavaDiv(size, 1024) * 1024 + 1024;
    NarrowedBlockMultiple(x);
    ToInt32(x)
  }

  /** Narrowing to 32 bits keeps a multiple of the block size a multiple. */
  lemma NarrowedBlockMultiple(x: int)
    requires x % 1024 == 0
    ensures ToInt32(x) % 1024 == 0
  {
    var q := x / 1024;
    var j := x / 0x1_0000_0000;
    assert x % 0x1_0000_0000 == 1024 * (q - 0x40_0000 * j);
    var c := q - 0x40_0000 * j;
    assert ToInt32(x) == 1024 * c || ToInt32(x) == 1024 * (c - 0x40_0000);
  }

  /** For a non-negative size below 2^31 - 1024, the buffer is the size
      rounded up to whole blocks, with a full block more when the size is
      already a multiple of the block size. */
  lemma CapacityCovers(size: int)
    requires 0 <= size < 0x8000_0000 - 1024
    ensures Capacity(size) % 1024 == 0
    ensures size < Capacity(size) <= size + 1024
  {
    assert size == 1024 * (size / 1024) + size % 1024;
  }

  /** The last element of s as a one-element list, or nothing for an empty s. */
  function LastOf(s: seq<int>): (r: seq<int>)
    ensures |r| == (if s == [] then 0 else 1)
    ensures s != [] ==> r[0] == s[|s| - 1]
  {
    if s == [] then [] else [s[|s| - 1]]
  }

  /** The block lists the four find methods return for an inode. */
  function Directs(v: Volume, pointer: int, inode: int): seq<int>
  {
    Children(v.image, 0, InodeBase(v, pointer, inode) + 40, 12)
  }

  function Indirects(v: Volume, pointer: int, inode: int, depth: nat): seq<int>
    requires 1 <= depth <= 3
  {
    Expand(v.image, depth, ReadPtr(v.image, InodeBase(v, pointer, inode) + 84 + 4 * depth))
  }

  /** The blocks copied into the buffer, in order: every direct block, then
      only the LAST block of each non-empty indirect list. */
  function FileBlocks(v: Volume, pointer: int, inode: int): seq<int>
  {
    Directs(v, pointer, inode)
      + LastOf(Indirects(v, pointer, inode, 1))
      + LastOf(Indirects(v, pointer, inode, 2))
      + LastOf(Indirects(v, pointer, inode, 3))
  }

  /** The direct loop's `actualSize += blockSize`, once per block. */
  function DirectsSize(directs: seq<int>): int
    decreases |directs|
  {
    if directs == [] then 0 else DirectsSize(directs[..|directs| - 1]) + 1024
  }

  /** The `actualSize = blockSize` of one `if (!list.isEmpty())` block. */
  function ResetSize(actual: int, list: seq<int>): int
  {
    if list == [] then actual else 1024
  }

  /** `actualSize` after the direct loop and the three indirect blocks. */
  function ActualSize(directs: seq<int>, l1: seq<int>, l2: seq<int>, l3: seq<int>): int
  {
    ResetSize(ResetSize(ResetSize(DirectsSize(directs), l1), l2), l3)
  }

  /** The direct loop adds up to a block's worth per direct block. */
  lemma {:induction false} DirectsSizeCounts(directs: seq<int>)
    ensures DirectsSize(directs) == 1024 * |directs|
    decreases |directs|
  {
    if directs != [] {
      DirectsSizeCounts(directs[..|directs| - 1]);
    }
  }

  /** The bytes of the given blocks, one getBytes of a block each, concatenated. */
  function BlockBytes(img: seq<Byte>, blocks: seq<int>): (r: seq<Byte>)
    ensures |r| == 1024 * |blocks|
    decreases |blocks|
  {
    if blocks == [] then []
    else BlockBytes(img, blocks[..|blocks| - 1]) + GetBytes(img, blocks[|blocks| - 1] * 1024, 1024)
  }

  /** Byte j of the k-th copied block is byte j of that block's getBytes. */
  lemma {:induction false} BlockBytesAt(img: seq<Byte>, blocks: seq<int>, k: int, j: int)
    requires 0 <= k < |blocks| && 0 <= j < 1024
    ensures BlockBytes(img, blocks)[1024 * k + j] == GetBytes(img, blocks[k] * 1024, 1024)[j]
    decreases |blocks|
  {
    var front := blocks[..|blocks| - 1];
    if k < |blocks| - 1 {
      BlockBytesAt(img, front, k, j);
      assert 1024 * k + j < 1024 * |front|;
    }
  }

  /** Copying blocks a, then blocks b, gives their bytes one after the other. */
  lemma {:induction false} BlockBytesAppend(img: seq<Byte>, a: seq<int>, b: seq<int>)
    ensures BlockBytes(img, a + b) == BlockBytes(img, a) + BlockBytes(img, b)
    decreases |b|
  {
    if b == [] {
      assert a + b == a;
    } else {
      var b' := b[..|b| - 1];
      assert (a + b)[..|a + b| - 1] == a + b';
      BlockBytesAppend(img, a, b');
    }
  }

  function Zeros(n: nat): (r: seq<Byte>)
    ensures |r| == n && forall i :: 0 <= i < n ==> r[i] == 0
  {
    seq(n, i => 0)
  }

  /** The buffer of capacity `cap` filled from the four block lists. */
  function Fill(img: seq<Byte>, size: int, cap: int, directs: seq<int>, l1: seq<int>, l2: seq<int>, l3: seq<int>)
    : (r: Result<Ext2File, FileFault>)
    requires 0 <= cap
  {
    var blocks := directs + LastOf(l1) + LastOf(l2) + LastOf(l3);
    if 1024 * |blocks| > cap then Err(Overflow)
    else
      var filled := BlockBytes(img, blocks);
      Ok(Ext2File(size, ActualSize(directs, l1, l2, l3), filled + Zeros(cap - |filled|), |filled|))
  }

  /** What the assembly after the walk produces for the inode it ended on. */
  function Assemble(v: Volume, pointer: int, inode: int): (r: Result<Ext2File, FileFault>)
    ensures r.Ok? ==> Valid(r.value)
    ensures var cap := Capacity(GetFileSize(v, pointer, inode));
            r.Err? <==> cap < 0 || 1024 * |FileBlocks(v, pointer, inode)| > cap
    ensures r.Ok? ==> (&& r.value.size == GetFileSize(v, pointer, inode)
                       && |r.value.buffer| == Capacity(r.value.size)
                       && r.value.position == 1024 * |FileBlocks(v, pointer, inode)|
                       && r.value.buffer[..(r.value.position)] == BlockBytes(v.image, FileBlocks(v, pointer, inode))
                       && (forall i :: r.value.position <= i < |r.value.buffer| ==> r.value.buffer[i] == 0))
    ensures r.Ok? ==>
              r.value.actualSize == if Indirects(v, pointer, inode, 1) == [] && Indirects(v, pointer, inode, 2) == []
                                       && Indirects(v, pointer, inode, 3) == []
                                    then 1024 * |Directs(v, pointer, inode)| else 1024
  {
    var size := GetFileSize(v, pointer, inode);
    var cap := Capacity(size);
    ActualWithinCopied(Directs(v, pointer, inode), Indirects(v, pointer, inode, 1),
                       Indirects(v, pointer, inode, 2), Indirects(v, pointer, inode, 3));
    if cap < 0 then Err(NegativeCapacity)
    else
      var r := Fill(v.image, size, cap, Directs(v, pointer, inode), Indirects(v, pointer, inode, 1),
                    Indirects(v, pointer, inode, 2), Indirects(v, pointer, inode, 3));
      assert r.Ok? ==> r.value.buffer[..(r.value.position)] == BlockBytes(v.image, FileBlocks(v, pointer, inode));
      r
  }

  /** The readable length is one block as soon as any indirect list is
      non-empty, and a block per direct block otherwise; it never exceeds
      the bytes copied, so reads at an offset never reach the zero padding. */
  lemma ActualWithinCopied(directs: seq<int>, l1: seq<int>, l2: seq<int>, l3: seq<int>)
    ensures ActualSize(directs, l1, l2, l3) == if l1 == [] && l2 == [] && l3 == [] then 1024 * |directs| else 1024
    ensures 0 <= ActualSize(directs, l1, l2, l3) <= 1024 * |directs + LastOf(l1) + LastOf(l2) + LastOf(l3)|
  {
    DirectsSizeCounts(directs);
  }

  /** The loop over the direct blocks: each `put` copies one block, and
      the first that finds less than a block's room left throws. */
  method PutDirects(img: seq<Byte>, directs: seq<int>, cap: int) returns (r: Result<seq<Byte>, FileFault>)
    requires 0 <= cap
    ensures r == if 1024 * |directs| > cap then Err(Overflow) else Ok(BlockBytes(img, directs))
  {
    var filled: seq<Byte> := [];
    var i := 0;
    while i < |directs|
      invariant 0 <= i <= |directs|
      invariant filled == BlockBytes(img, directs[..i])
      invariant 1024 * i <= cap
    {
      if |filled| + 1024 > cap {
        return Err(Overflow);
      }
      assert directs[..i + 1][..i] == directs[..i];
      filled := filled + GetBytes(img, directs[i] * 1024, 1024);
      i := i + 1;
    }
    assert directs[..i] == directs;
    r := Ok(filled);
  }

  /** One `if (!list.isEmpty())` block: copy the list's last block. */
  method PutLast(img: seq<Byte>, done: seq<int>, filled: seq<Byte>, cap: int, list: seq<int>) returns (r: Result<seq<Byte>, FileFault>)
    requires filled == BlockBytes(img, done) && |filled| <= cap
    ensures r == if 1024 * |done + LastOf(list)| > cap then Err(Overflow) else Ok(BlockBytes(img, done + LastOf(list)))
  {
    if list == [] {
      assert done + LastOf(list) == done;
      return Ok(filled);
    }
    if |filled| + 1024 > cap {
      return Err(Overflow);
    }
    var lastBlock := list[|list| - 1];
    BlockBytesAppend(img, done, [lastBlock]);
    assert BlockBytes(img, [lastBlock]) == GetBytes(img, lastBlock * 1024, 1024) by {
      assert [lastBlock][..0] == [];
    }
    r := Ok(filled + GetBytes(img, lastBlock * 1024, 1024));
  }

  /** The copying part of PathHelper.getBytes, given the four block lists. */
  method FillBuffer(img: seq<Byte>, size: int, cap: int, directs: seq<int>, l1: seq<int>, l2: seq<int>, l3: seq<int>) returns (r: Result<Ext2File, FileFault>)
    requires 0 <= cap
    ensures r == Fill(img, size, cap, directs, l1, l2, l3)
  {
    var b1 := directs + LastOf(l1);
    var b2 := b1 + LastOf(l2);
    var f0 := PutDirects(img, directs, cap);
    if f0.Err? {
      return Err(Overflow);
    }
    var f1 := PutLast(img, directs, f0.value, cap, l1);
    if f1.Err? {
      return Err(Overflow);
    }
    var f2 := PutLast(img, b1, f1.value, cap, l2);
    if f2.Err? {
      return Err(Overflow);
    }
    var f3 := PutLast(img, b2, f2.value, cap, l3);
    if f3.Err? {
      return Err(Overflow);
    }
    ActualWithinCopied(directs, l1, l2, l3);
    var actualSize := 1024 * |directs|;
    if l1 != [] || l2 != [] || l3 != [] {
      actualSize := 1024;
    }
    var filled := f3.value;
    r := Ok(Ext2File(size, actualSize, filled + Zeros(cap - |filled|), |filled|));
  }

  /** The assembly part of PathHelper.getBytes, with the find methods. */
  method AssembleFile(v: Ext2Volume, pointer: int, inode: int) returns (r: Result<Ext2File, FileFault>)
    ensures r == Assemble(v, pointer, inode)
  {
    var size := GetFileSize(v, pointer, inode);
    var cap := Capacity(size);
    if cap < 0 {
      return Err(NegativeCapacity);
    }
    var directs := FindDirect(v, pointer, inode);
    var indirects := FindIndirect(v, pointer, inode);
    var doubles := FindDoubleIndirect(v, pointer, inode);
    var triples := FindTripleIndirect(v, pointer, inode);
    r := FillBuffer(v.image, size, cap, directs, indirects, doubles, triples);
  }

  /** A stored size below 2^32 with bit 15 of its low half set comes back
      from getFileSize as nearly 2^32, and the `(int)` cast of the capacity
      wraps it to at most 0: such a file fails to open with a negative
      capacity, or, with a capacity of 0, as soon as one block is copied. */
  lemma CapacityOfWrappedSize(low: int)
    requires 0x8000 <= low < 0x1_0000
    ensures Capacity(0x1_0000_0000 - 0x1_0000 + low) == low / 1024 * 1024 - 0xFC00
    ensures -31744 <= Capacity(0x1_0000_0000 - 0x1_0000 + low) <= 0
  {
    var size := 0x1_0000_0000 - 0x1_0000 + low;
    assert JavaDiv(size, 1024) == 0x40_0000 - 64 + low / 1024;
    assert JavaDiv(size, 1024) * 1024 + 1024 == 0x1_0000_0000 - 0xFC00 + low / 1024 * 1024;
  }

  /** The same for a record in the image: a size field holding x, with bit
      15 of its low half set and a zero upper half, makes the assembly fail
      or yield an empty buffer. */
  lemma StoredSizeBit15FailsOpen(v: Volume, pointer: int, inode: int, x: int)
    requires 0 <= x < 0x1_0000_0000 && x % 0x1_0000 >= 0x8000
    requires var base := InodeBase(v, pointer, inode);
             0 <= base && base + 112 <= |v.image|
             && v.image[base + 4..base + 8] == Le32(x)
             && v.image[base + 108] == 0 && v.image[base + 109] == 0
    ensures x % 0x1_0000 < 0xFC00 ==> Assemble(v, pointer, inode) == Err(NegativeCapacity)
    ensures Assemble(v, pointer, inode).Ok? ==> |Assemble(v, pointer, inode).value.buffer| == 0
  {
    FileSizeOfStoredSize(v, pointer, inode, x);
    CapacityOfWrappedSize(x % 0x1_0000);
  }

  /** The Ext2File constructor: walk the split path, then assemble. */
  method OpenFile(v: Ext2Volume, path: string) returns (r: Result<Ext2File, FileFault>)
    ensures Walk(v, Start(v), Split(path)).Err? ==> r == Err(PathFault(Walk(v, Start(v), Split(path)).error))
    ensures Walk(v, Start(v), Split(path)).Ok? ==>
              r == Assemble(v, Walk(v, Start(v), Split(path)).value.pointer, Walk(v, Start(v), Split(path)).value.inode)
  {
    var walked := WalkPath(v, Split(path));
    if walked.Err? {
      return Err(PathFault(walked.error));
    }
    r := AssembleFile(v, walked.value.pointer, walked.value.inode);
  }

  // ---------------------------------------------------------------------
  // Reading

  function Min(a: int, b: int): int { if a <= b then a else b }

  /** `read(startByte, length)`: null for an offset outside [0, size);
      otherwise `length` bytes, the buffer's bytes from the offset while both
      `i < length - startByte` and `i < actualSize - startByte` hold, zeros
      after. */
  function Read(f: Ext2File, start: int, len: int): (r: Option<seq<Byte>>)
    requires Valid(f) && 0 <= len < 0x8000_0000
    ensures r.None? <==> start >= f.size || start < 0
    ensures r.Some? ==>
              var n := Min(len - start, f.actualSize - start);
              && |r.value| == len
              && (n > 0 ==> r.value[..n] == f.buffer[start..start + n])
              && forall i :: 0 <= i < len && i >= n ==> r.value[i] == 0
  {
    if start >= f.size || start < 0 then None
    else
      var bytes := seq(len, i requires 0 <= i < len =>
        if i < len - start && i < f.actualSize - start then f.buffer[ToInt32(start) + i] else 0);
      var n := Min(len - start, f.actualSize - start);
      assert n > 0 ==> bytes[..n] == f.buffer[start..start + n] by {
        if n > 0 {
          forall k | 0 <= k < n
            ensures bytes[..n][k] == f.buffer[start..start + n][k]
          {
            assert k < len - start && k < f.actualSize - start;
            assert ToInt32(start) == start;
            assert bytes[k] == f.buffer[start + k];
          }
        }
      }
      Some(bytes)
  }

  /** `read(startByte, length)` copies only `length - startByte` bytes, so
      one byte read at any offset past the first is a zero. */
  lemma ReadOneByteAfterStart(f: Ext2File, k: int)
    requires Valid(f) && 1 <= k < f.size
    ensures Read(f, k, 1) == Some([0])
  {
    var r := Read(f, k, 1).value;
    assert |r| == 1 && r[0] == 0;
    assert r == [0];
  }

  /** The outcome of `read(length)` at the cursor: null, the bytes, or a
      buffer underflow thrown part-way through. */
  datatype CursorRead = NullRead | Got(data: seq<Byte>) | Underflow

  /** A cursor read's outcome together with the file as it stands after it. */
  datatype CursorStep = CursorStep(outcome: CursorRead, file: Ext2File)

  /** `read(length)`: null when the cursor is past actualSize; otherwise up to
      min(length, actualSize) relative gets, which run the cursor forward and
      throw once it reaches the end of the buffer, leaving it there. */
  function ReadAtCursor(f: Ext2File, len: int): (r: CursorStep)
    requires Valid(f) && 0 <= len < 0x8000_0000
    ensures Valid(r.file) && r.file.buffer == f.buffer && r.file.size == f.size && r.file.actualSize == f.actualSize
    ensures r.outcome.NullRead? <==> f.position > f.actualSize
    ensures r.outcome.NullRead? ==> r.file == f
    ensures r.outcome.Underflow? ==> r.file.position == |f.buffer|
    ensures r.outcome.Got? ==>
              var count := r.file.position - f.position;
              && count == Min(len, f.actualSize)
              && |r.outcome.data| == len
              && r.outcome.data[..count] == f.buffer[f.position..(r.file.position)]
              && forall i :: count <= i < len ==> r.outcome.data[i] == 0
  {
    if f.position > f.actualSize then CursorStep(NullRead, f)
    else
      var count := Min(len, f.actualSize);
      if f.position + count > |f.buffer| then CursorStep(Underflow, f.(position := |f.buffer|))
      else
        var data := f.buffer[f.position..f.position + count] + Zeros(len - count);
        assert data[..count] == f.buffer[f.position..f.position + count];
        CursorStep(Got(data), f.(position := f.position + count))
  }

  /** `seek(p)`: the position `(int) p`, refused (None) outside [0, capacity]. */
  function Seek(f: Ext2File, p: int): (r: Option<Ext2File>)
    requires Valid(f)
    ensures r.Some? <==> 0 <= ToInt32(p) <= |f.buffer|
    ensures r.Some? ==> (Valid(r.value) && r.value.position == ToInt32(p)
                         && r.value.(position := f.position) == f)
  {
    var q := ToInt32(p);
    if 0 <= q <= |f.buffer| then Some(f.(position := q)) else None
  }

  /** `position()`. */
  function Position(f: Ext2File): int { f.position }

  /** `size()`. */
  function Size(f: Ext2File): int { f.size }

  /** Seeking to any offset inside the buffer and asking for the position
      gives that offset back. */
  lemma SeekThenPosition(f: Ext2File, p: int)
    requires Valid(f) && 0 <= p <= |f.buffer|
    ensures Seek(f, p).Some? && Position(Seek(f, p).value) == p
  {
  }

  /** Two cursor reads of a and b bytes return what one read of a + b bytes
      returns, and leave the cursor at the same place, as long as both stay
      within actualSize. */
  lemma CursorReadsConcatenate(f: Ext2File, a: int, b: int)
    requires Valid(f) && 0 <= a && 0 <= b
    requires f.position + a + b <= f.actualSize
    ensures var s1 := ReadAtCursor(f, a);
            var s2 := ReadAtCursor(s1.file, b);
            var s := ReadAtCursor(f, a + b);
            && s1.outcome.Got? && s2.outcome.Got? && s.outcome.Got?
            && s.outcome.data == s1.outcome.data + s2.outcome.data && s2.file == s.file
  {
    var s1 := ReadAtCursor(f, a);
    var s2 := ReadAtCursor(s1.file, b);
    var s := ReadAtCursor(f, a + b);
    var c1, c2, c := s1.outcome, s2.outcome, s.outcome;
    var p := f.position;
    assert c1.data == f.buffer[p..p + a];
    assert c2.data == f.buffer[p + a..p + a + b];
    assert c.data == f.buffer[p..p + a + b];
  }

  /** After seeking to p, a cursor read starts with the same bytes as an
      offset read at p, for as long as the offset read copies from the
      buffer. */
  lemma CursorAgreesWithRead(f: Ext2File, p: int, len: int)
    requires Valid(f) && 0 <= p < f.size && p <= |f.buffer| && 0 <= len < 0x8000_0000
    ensures var g := Seek(f, p).value;
            var c := ReadAtCursor(g, len).outcome;
            var n := Min(len - p, f.actualSize - p);
            c.Got? ==> forall i :: 0 <= i < n ==> c.data[i] == Read(f, p, len).value[i]
  {
    var g := Seek(f, p).value;
    var c := ReadAtCursor(g, len).outcome;
    var n := Min(len - p, f.actualSize - p);
    if c.Got? {
      forall i | 0 <= i < n
        ensures c.data[i] == Read(f, p, len).value[i]
      {
        assert c.data[..Min(len, f.actualSize)][i] == c.data[i];
        assert Read(f, p, len).value[..n][i] == Read(f, p, len).value[i];
      }
    }
  }

  /** Right after opening, the cursor sits behind every copied block, so a
      file that copied a block besides a non-empty indirect list's answers
      `read(length)` with null until it is moved back. */
  lemma FreshFileCursor(v: Volume, pointer: int, inode: int)
    requires Assemble(v, pointer, inode).Ok?
    requires Assemble(v, pointer, inode).value.actualSize == 1024 && |FileBlocks(v, pointer, inode)| >= 2
    ensures ReadAtCursor(Assemble(v, pointer, inode).value, 1).outcome == NullRead
  {
  }
}
