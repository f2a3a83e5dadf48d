/** Directory.java: walk a path and list the entries of the directory it
    ends on, one `ls -l` style row per entry. */
module Directories {
  import opened Bytes
  import opened Results
  import opened TreeMaps
  import opened Helper
  import opened Volumes
  import opened Pointers
  import opened Paths
  import opened Ext2Files

  /** The group adjustment of fileInfo's walk: two `if`s in sequence rather
      than an `if`/`else if`. */
  function AdjustSequential(v: Ext2Volume, pointer: int, n: int): (int, int)
  {
    var ipg := v.superBlock.inodesInGroup;
    var (p1, n1) := if n > ipg && n < ipg * 2 then (FindInodePointer(v, 1), ToInt32(n - ipg)) else (pointer, n);
    if n1 > 2 * ipg then (FindInodePointer(v, 2), ToInt32(n1 - ToInt32(ipg * 2))) else (p1, n1)
  }

  /** The second `if` never fires after the first: the first needs a
      positive count per group and leaves a number below it. So the two
      `if`s choose exactly as the `else if` of the other walks. */
  lemma AdjustSequentialIsSelectGroup(v: Ext2Volume, pointer: int, n: int)
    ensures AdjustSequential(v, pointer, n) == SelectGroup(v, pointer, n)
  {
    var ipg := v.superBlock.inodesInGroup;
    if n > ipg && n < ipg * 2 {
      var n1 := ToInt32(n - ipg);
      assert n1 <= n - ipg < ipg;
      assert !(n1 > 2 * ipg);
    }
  }

  /** The variables of fileInfo's walk: `nextInode`, `pointer` and the
      collected `directories` list. */
  datatype InfoState = InfoState(inode: int, pointer: int, directories: seq<int>)

  /** The entry loop of one path component: each entry whose key equals
      `name` takes the inode, adjusts the group, and on the last component
      adds the direct blocks of the inode it reached. */
  function MatchInfo(v: Ext2Volume, m: TreeMap, name: string, last: bool, st: InfoState): InfoState
    decreases |m|
  {
    if m == [] then st
    else
      var st' :=
        if m[0].0 == name then
          var pk := AdjustSequential(v, st.pointer, m[0].1);
          InfoState(pk.1, pk.0, if last then st.directories + Directs(v, pk.0, pk.1) else st.directories)
        else st;
      MatchInfo(v, m[1..], name, last, st')
  }

  /** An entry loop over a map without the name changes nothing. */
  lemma {:induction false} MatchInfoAbsent(v: Ext2Volume, m: TreeMap, name: string, last: bool, st: InfoState)
    requires forall i :: 0 <= i < |m| ==> m[i].0 != name
    ensures MatchInfo(v, m, name, last, st) == st
    decreases |m|
  {
    if m != [] {
      assert forall i :: 0 <= i < |m[1..]| ==> m[1..][i] == m[i + 1];
      MatchInfoAbsent(v, m[1..], name, last, st);
    }
  }

  /** Taking inode x from the directory: its group's table and local
      number, and on the last component the direct blocks found there. */
  function Enter(v: Ext2Volume, st: InfoState, x: int, last: bool): InfoState
  {
    var pk := SelectGroup(v, st.pointer, x);
    InfoState(pk.1, pk.0, if last then st.directories + Directs(v, pk.0, pk.1) else st.directories)
  }

  /** In a sorted map the name occurs at most once, so the entry loop enters
      the inode stored under it, or does nothing. */
  lemma {:induction false} MatchInfoIsGet(v: Ext2Volume, m: TreeMap, name: string, last: bool, st: InfoState)
    requires Sorted(m)
    ensures Get(m, name).None? ==> MatchInfo(v, m, name, last, st) == st
    ensures Get(m, name).Some? ==> MatchInfo(v, m, name, last, st) == Enter(v, st, Get(m, name).value, last)
    decreases |m|
  {
    if m != [] {
      if m[0].0 == name {
        forall i | 0 <= i < |m[1..]|
          ensures m[1..][i].0 != name
        {
          SortedStrictly(m, 0, i + 1);
        }
        AdjustSequentialIsSelectGroup(v, st.pointer, m[0].1);
        MatchInfoAbsent(v, m[1..], name, last, Enter(v, st, m[0].1, last));
      } else {
        MatchInfoIsGet(v, m[1..], name, last, st);
      }
    }
  }

  /** One pass of fileInfo's loop over the path: re-read the directory
      pointer of the current inode, then run the entry loop. */
  function InfoStep(v: Ext2Volume, st: InfoState, name: string, last: bool): (r: Result<InfoState, DirFault>)
    ensures var listing := ReadDirectory(v, FindDirectory(v, st.pointer, st.inode));
            && (listing.Err? ==> r == Err(listing.error))
            && (listing.Ok? && Get(listing.value, name).None? ==> r == Ok(st))
            && (listing.Ok? && Get(listing.value, name).Some? ==> r == Ok(Enter(v, st, Get(listing.value, name).value, last)))
  {
    match ReadDirectory(v, FindDirectory(v, st.pointer, st.inode))
    case Err(f) => Err(f)
    case Ok(m) =>
      MatchInfoIsGet(v, m, name, last, st);
      Ok(MatchInfo(v, m, name, last, st))
  }

  /** The loop over the split path; `last` marks the final component. */
  function InfoWalk(v: Ext2Volume, st: InfoState, names: seq<string>): Result<InfoState, DirFault>
    decreases |names|
  {
    if names == [] then Ok(st)
    else
      match InfoStep(v, st, names[0], |names| == 1)
      case Err(f) => Err(f)
      case Ok(s) => InfoWalk(v, s, names[1..])
  }

  /** Only the final component collects blocks: a walk adds nothing, or
      exactly the direct blocks of the inode it ends on. */
  lemma {:induction false} OnlyLastCollects(v: Ext2Volume, st: InfoState, names: seq<string>, st': InfoState)
    requires InfoWalk(v, st, names) == Ok(st')
    ensures st'.directories == st.directories || st'.directories == st.directories + Directs(v, st'.pointer, st'.inode)
    decreases |names|
  {
    if names != [] {
      var s := InfoStep(v, st, names[0], |names| == 1).value;
      if |names| > 1 {
        assert s.directories == st.directories;
        OnlyLastCollects(v, s, names[1..], st');
      } else {
        assert st' == s;
      }
    }
  }

  /** One printed line: mode string, link count, uid, gid, size, modification
      time (seconds; the Date conversion is not modelled) and name. */
  datatype Row = Row(mode: string, links: int, uid: int, gid: int, size: int, modTime: int, name: string)

  /** The line of the entry `name` -> n: the pointer is reset to group 0's
      table before the group adjustment. */
  function RowOf(v: Ext2Volume, name: string, n: int): Row
  {
    var pk := SelectGroup(v, FindInodePointer(v, 0), n);
    Row(FileMode(GetFileMode(v, pk.0, pk.1)), GetHardLinks(v, pk.0, pk.1), GetUserId(v, pk.0, pk.1),
        GetGroupId(v, pk.0, pk.1), GetFileSize(v, pk.0, pk.1), GetModTime(v, pk.0, pk.1), name)
  }

  /** For a positive inodes-per-group count below 2^30, the line of entry
      `name` -> n shows the mode, link count, owner and modification time of
      the record the nested decoder reads for inode n; its "group" column is
      the low half of that record's deletion time. */
  lemma RowOfVersusRecord(v: Ext2Volume, name: string, n: int)
    requires 0 < v.superBlock.inodesInGroup < 0x4000_0000 && IsInt32(n)
    requires InodeBase(v, v.groupDesc[LocateInode(v.superBlock.inodesInGroup, n).0].tablePointer,
                       LocateInode(v.superBlock.inodesInGroup, n).1) >= 0
    requires InodeOf(v, n).Ok?
    ensures var row := RowOf(v, name, n);
            var rec := InodeOf(v, n).value;
            && row.mode == FileMode(rec.fileMode) && row.links == rec.numOfLinks
            && row.uid == rec.userId && row.modTime == rec.modifiedTime
            && row.gid == SignExtend16(rec.deletedTime % 0x1_0000) && row.name == name
  {
    var loc := LocateInode(v.superBlock.inodesInGroup, n);
    SelectGroupAgreesWithLocate(v, n);
    ReadersVersusRecord(v, v.groupDesc[loc.0].tablePointer, loc.1);
  }

  /** The lines of one directory block, in the map's entry order. */
  function BlockRows(v: Ext2Volume, m: TreeMap): (rows: seq<Row>)
    ensures |rows| == |m|
    decreases |m|
  {
    if m == [] then [] else [RowOf(v, m[0].0, m[0].1)] + BlockRows(v, m[1..])
  }

  /** Line i of a block is the line of its i-th entry. */
  lemma {:induction false} BlockRowsAt(v: Ext2Volume, m: TreeMap, i: int)
    requires 0 <= i < |m|
    ensures BlockRows(v, m)[i] == RowOf(v, m[i].0, m[i].1)
    decreases |m|
  {
    if i > 0 {
      BlockRowsAt(v, m[1..], i - 1);
      assert m[1..][i - 1] == m[i];
      assert BlockRows(v, m)[i] == BlockRows(v, m[1..])[i - 1];
    }
  }

  /** The lines of a block come out in strictly ascending name order. */
  lemma RowsInNameOrder(v: Ext2Volume, m: TreeMap)
    requires Sorted(m)
    ensures forall i, j :: 0 <= i < j < |m| ==> Less(BlockRows(v, m)[i].name, BlockRows(v, m)[j].name)
  {
    forall i, j | 0 <= i < j < |m|
      ensures Less(BlockRows(v, m)[i].name, BlockRows(v, m)[j].name)
    {
      SortedStrictly(m, i, j);
      BlockRowsAt(v, m, i);
      BlockRowsAt(v, m, j);
    }
  }

  /** The printed lines, and the fault that cut the listing short, if any. */
  datatype Listing = Listing(rows: seq<Row>, fault: Option<DirFault>)

  /** The loop over the collected blocks: zero blocks are skipped, and a block
      that does not parse ends the listing after the lines already printed. */
  function ListBlocks(v: Ext2Volume, ds: seq<int>): Listing
    decreases |ds|
  {
    if ds == [] then Listing([], None)
    else if ds[0] == 0 then ListBlocks(v, ds[1..])
    else
      match ReadDirectory(v, ds[0])
      case Err(f) => Listing([], Some(f))
      case Ok(m) =>
        var rest := ListBlocks(v, ds[1..]);
        Listing(BlockRows(v, m) + rest.rows, rest.fault)
  }

  /** Listing a + b prints a's lines, then, unless a faulted, b's. */
  lemma {:induction false} ListBlocksAppend(v: Ext2Volume, a: seq<int>, b: seq<int>)
    ensures var la := ListBlocks(v, a);
            ListBlocks(v, a + b) == if la.fault.Some? then la else Listing(la.rows + ListBlocks(v, b).rows, ListBlocks(v, b).fault)
    decreases |a|
  {
    if a == [] {
      assert a + b == b;
    } else {
      assert (a + b)[0] == a[0] && (a + b)[1..] == a[1..] + b;
      ListBlocksAppend(v, a[1..], b);
      if a[0] != 0 && ReadDirectory(v, a[0]).Ok? {
        var m := ReadDirectory(v, a[0]).value;
        var la' := ListBlocks(v, a[1..]);
        if la'.fault.None? {
          assert BlockRows(v, m) + (la'.rows + ListBlocks(v, b).rows) == (BlockRows(v, m) + la'.rows) + ListBlocks(v, b).rows;
        }
      }
    }
  }

  /** Directory.fileInfo. */
  function FileInfo(v: Ext2Volume, path: string): Listing
  {
    match InfoWalk(v, InfoState(ROOT_INODE, FindInodePointer(v, 0), []), Split(path))
    case Err(f) => Listing([], Some(f))
    case Ok(st) => ListBlocks(v, st.directories)
  }

  /** fileInfo lists the direct blocks of the inode its walk ends on when
      the last component was found, and prints nothing otherwise. */
  lemma FileInfoListsFinalInode(v: Ext2Volume, path: string, st: InfoState)
    requires InfoWalk(v, InfoState(ROOT_INODE, FindInodePointer(v, 0), []), Split(path)) == Ok(st)
    ensures st.directories == [] ==> FileInfo(v, path) == Listing([], None)
    ensures st.directories != [] ==> FileInfo(v, path) == ListBlocks(v, Directs(v, st.pointer, st.inode))
  {
    var st0 := InfoState(ROOT_INODE, FindInodePointer(v, 0), []);
    OnlyLastCollects(v, st0, Split(path), st);
    assert FileInfo(v, path) == ListBlocks(v, st.directories);
    var d := Directs(v, st.pointer, st.inode);
    if st.directories != [] {
      assert [] + d == d;
      assert st.directories == d;
      assert ListBlocks(v, st.directories) == ListBlocks(v, d);
    }
  }
}
