/** Helper.java: the directory-block parser behind `toDirectory` and the
    `ls`-style mode string of `fileMode`. */
module Helper {
  import opened Bytes
  import opened Results
  import opened TreeMaps

  /** One variable-length record of a directory block, as the parser reads it. */
  datatype DirEntry = DirEntry(start: nat, inode: int, recLen: int, nameLen: nat, fileType: int, name: string)

  /** How the walk over a directory block can go wrong. The first three and
      `BadPosition` are Java exceptions (buffer underflow, negative array
      size, `position` outside the buffer). With a record length of 0 the
      source loops forever on the same record (`Stalls`); with a negative one
      that lands inside the block it jumps back (`Backtracks`); neither is
      followed here. */
  datatype DirFault =
    | HeaderUnderflow(at: nat)
    | NegativeNameLength(at: nat)
    | NameUnderflow(at: nat)
    | BadPosition(at: nat)
    | Stalls(at: nat)
    | Backtracks(at: nat)

  /** The name bytes of the record at p, each widened to a char. */
  function NameAt(b: seq<Byte>, p: nat, n: nat): (s: string)
    requires p + 8 + n <= |b|
    ensures |s| == n
  {
    seq(n, j requires 0 <= j < n => Widen(b[p + 8 + j]))
  }

  /** The records of a block from offset p to its end, in disk order. */
  function ParseFrom(b: seq<Byte>, p: nat): Result<seq<DirEntry>, DirFault>
    requires p <= |b|
    decreases |b| - p
  {
    if p == |b| then Ok([])
    else if |b| - p < 8 then Err(HeaderUnderflow(p))
    else
      var inode := I32At(b, p);
      var recLen := I16At(b, p + 4);
      var nameLen := SignedByte(b[p + 6]);
      var fileType := SignedByte(b[p + 7]);
      if nameLen < 0 then Err(NegativeNameLength(p))
      else if p + 8 + nameLen > |b| then Err(NameUnderflow(p))
      else if p + recLen < 0 || p + recLen > |b| then Err(BadPosition(p))
      else if recLen == 0 then Err(Stalls(p))
      else if recLen < 0 then Err(Backtracks(p))
      else
        var e := DirEntry(p, inode, recLen, nameLen, fileType, NameAt(b, p, nameLen));
        match ParseFrom(b, p + recLen)
        case Err(f) => Err(f)
        case Ok(rest) => Ok([e] + rest)
  }

  /** Entry e is what the header and name bytes at e.start say. */
  ghost predicate Decoded(b: seq<Byte>, e: DirEntry)
  {
    && e.start + 8 + e.nameLen <= |b|
    && 0 < e.recLen && e.start + e.recLen <= |b|
    && e.inode == I32At(b, e.start)
    && e.recLen == I16At(b, e.start + 4)
    && e.nameLen == b[e.start + 6] < 128
    && e.fileType == SignedByte(b[e.start + 7])
    && e.name == NameAt(b, e.start, e.nameLen)
  }

  /** A successful parse tiles [p, |b|) with records: the first starts at p,
      each next one at the previous start plus its record length (not its
      header plus name), and the last one's record length reaches the end. */
  lemma {:induction false} ParseFromChain(b: seq<Byte>, p: nat, es: seq<DirEntry>)
    requires p <= |b| && ParseFrom(b, p) == Ok(es)
    ensures es == [] <==> p == |b|
    ensures es != [] ==> es[0].start == p && es[|es| - 1].start + es[|es| - 1].recLen == |b|
    ensures forall k :: 0 <= k < |es| ==> Decoded(b, es[k])
    ensures forall k :: 0 <= k < |es| - 1 ==> es[k + 1].start == es[k].start + es[k].recLen
    decreases |b| - p
  {
    if p < |b| {
      var recLen := I16At(b, p + 4);
      var rest := es[1..];
      assert ParseFrom(b, p + recLen) == Ok(rest);
      ParseFromChain(b, p + recLen, rest);
    }
  }

  /** Conversely, a tiling of [p, |b|) by records that the bytes at their
      starts describe is exactly what the parse returns: a well-formed block
      is never rejected. */
  lemma {:induction false} ParseFromComplete(b: seq<Byte>, p: nat, es: seq<DirEntry>)
    requires p <= |b|
    requires es == [] <==> p == |b|
    requires es != [] ==> es[0].start == p && es[|es| - 1].start + es[|es| - 1].recLen == |b|
    requires forall k :: 0 <= k < |es| ==> Decoded(b, es[k])
    requires forall k :: 0 <= k < |es| - 1 ==> es[k + 1].start == es[k].start + es[k].recLen
    ensures ParseFrom(b, p) == Ok(es)
    decreases |es|
  {
    if es != [] {
      var e := es[0];
      var rest := es[1..];
      var q := p + e.recLen;
      assert Decoded(b, e);
      if rest != [] {
        assert rest[0] == es[1] && rest[|rest| - 1] == es[|es| - 1];
        assert Decoded(b, es[1]);
      }
      forall k | 0 <= k < |rest|
        ensures Decoded(b, rest[k])
      {
        assert rest[k] == es[k + 1];
      }
      forall k | 0 <= k < |rest| - 1
        ensures rest[k + 1].start == rest[k].start + rest[k].recLen
      {
        assert rest[k] == es[k + 1] && rest[k + 1] == es[k + 2];
      }
      ParseFromComplete(b, q, rest);
      ParseOneRecord(b, p, e, rest);
      assert es == [e] + rest;
    }
  }

  /** A record the bytes at p describe, in front of a parsed remainder. */
  lemma ParseOneRecord(b: seq<Byte>, p: nat, e: DirEntry, rest: seq<DirEntry>)
    requires p < |b| && e.start == p && Decoded(b, e)
    requires ParseFrom(b, p + e.recLen) == Ok(rest)
    ensures ParseFrom(b, p) == Ok([e] + rest)
  {
    assert SignedByte(b[p + 6]) == e.nameLen;
  }

  /** The map that `toDirectory` fills: `map.put(name, inode)` in disk order. */
  function Build(es: seq<DirEntry>): (m: TreeMap)
    ensures Sorted(m)
    ensures Keys(m) == set k | 0 <= k < |es| :: es[k].name
    decreases |es|
  {
    if es == [] then []
    else
      var front := es[..|es| - 1];
      var m' := Build(front);
      assert (set k | 0 <= k < |es| :: es[k].name) == (set k | 0 <= k < |front| :: front[k].name) + {es[|es| - 1].name};
      Put(m', es[|es| - 1].name, es[|es| - 1].inode)
  }

  /** A name maps to the inode of the LAST record carrying it, whatever that
      inode is (0 included). */
  lemma {:induction false} BuildLastWins(es: seq<DirEntry>, i: int)
    requires 0 <= i < |es|
    requires forall j :: i < j < |es| ==> es[j].name != es[i].name
    ensures Get(Build(es), es[i].name) == Some(es[i].inode)
    decreases |es|
  {
    if i < |es| - 1 {
      BuildLastWins(es[..|es| - 1], i);
    }
  }

  /** A name no record carries is absent from the map. */
  lemma {:induction false} BuildAbsent(es: seq<DirEntry>, k: string)
    requires forall j :: 0 <= j < |es| ==> es[j].name != k
    ensures Get(Build(es), k) == None
    decreases |es|
  {
    if es != [] {
      BuildAbsent(es[..|es| - 1], k);
    }
  }

  /** Helper.toDirectory: the records of one block as a name-ordered map. */
  function ToDirectory(b: seq<Byte>): (r: Result<TreeMap, DirFault>)
    ensures r.Ok? ==> Sorted(r.value)
  {
    match ParseFrom(b, 0)
    case Err(f) => Err(f)
    case Ok(es) => Ok(Build(es))
  }

  /** toDirectory maps each name to the inode of its last record in the
      block, keeps no other name, and iterates in name order. */
  lemma ToDirectoryMeaning(b: seq<Byte>, es: seq<DirEntry>, name: string)
    requires ParseFrom(b, 0) == Ok(es)
    ensures ToDirectory(b) == Ok(Build(es)) && Sorted(Build(es))
    ensures (forall j :: 0 <= j < |es| ==> es[j].name != name) ==> Get(Build(es), name) == None
    ensures forall i :: 0 <= i < |es| && es[i].name == name && (forall j :: i < j < |es| ==> es[j].name != name)
                 ==> Get(Build(es), name) == Some(es[i].inode)
  {
    ToDirectoryOk(b, es);
    if forall j :: 0 <= j < |es| ==> es[j].name != name {
      BuildAbsent(es, name);
    }
    forall i | 0 <= i < |es| && es[i].name == name && (forall j :: i < j < |es| ==> es[j].name != name)
      ensures Get(Build(es), name) == Some(es[i].inode)
    {
      BuildLastWins(es, i);
    }
  }

  lemma ToDirectoryOk(b: seq<Byte>, es: seq<DirEntry>)
    requires ParseFrom(b, 0) == Ok(es)
    ensures ToDirectory(b) == Ok(Build(es))
  {
  }

  /** Bit k of x in two's complement (x may be negative). */
  function Bit(x: int, k: nat): bool
    decreases k
  {
    if k == 0 then x % 2 == 1 else Bit(x / 2, k - 1)
  }

  /** Bits 0..15 of x do not change when 0x10000 is subtracted. */
  lemma {:induction false} BitBelow16(x: int, k: nat)
    requires k < 16
    ensures Bit(x - 0x1_0000, k) == Bit(x, k)
    decreases k
  {
    if k > 0 {
      assert (x - 0x1_0000) / 2 == x / 2 - 0x8000;
      Pow2Of15();
      BitShifted(x / 2, k - 1, 15);
    }
  }

  /** Bits below n do not change when 2^n is subtracted. */
  lemma {:induction false} BitShifted(x: int, k: nat, n: nat)
    requires k < n <= 15
    ensures Bit(x - Pow2(n), k) == Bit(x, k)
    decreases k
  {
    if k > 0 {
      assert (x - Pow2(n)) / 2 == x / 2 - Pow2(n - 1);
      BitShifted(x / 2, k - 1, n - 1);
    }
  }

  function Pow2(n: nat): (r: int)
    ensures r > 0
  {
    if n == 0 then 1 else 2 * Pow2(n - 1)
  }

  lemma Pow2Of15()
    ensures Pow2(15) == 0x8000
  {
    assert Pow2(1) == 2 && Pow2(2) == 4 && Pow2(3) == 8 && Pow2(4) == 16;
    assert Pow2(5) == 32 && Pow2(6) == 64 && Pow2(7) == 128 && Pow2(8) == 256;
    assert Pow2(9) == 512 && Pow2(10) == 1024 && Pow2(11) == 2048;
    assert Pow2(12) == 4096 && Pow2(13) == 8192 && Pow2(14) == 16384;
  }

  /** Helper.fileMode: 'd' for the directory bit 0x4000, then r/w/x for the
      permission bits 0x100 down to 0x001. */
  function FileMode(mode: int): (r: string)
    ensures |r| == 10
  {
    [ if Bit(mode, 14) then 'd' else '-',
      if Bit(mode, 8) then 'r' else '-',
      if Bit(mode, 7) then 'w' else '-',
      if Bit(mode, 6) then 'x' else '-',
      if Bit(mode, 5) then 'r' else '-',
      if Bit(mode, 4) then 'w' else '-',
      if Bit(mode, 3) then 'x' else '-',
      if Bit(mode, 2) then 'r' else '-',
      if Bit(mode, 1) then 'w' else '-',
      if Bit(mode, 0) then 'x' else '-' ]
  }

  /** Character 0 of the mode string is 'd' exactly for the directory bit;
      character k is the k-th letter of "rwxrwxrwx" exactly when the
      permission bit 0x100 >> (k - 1) is set, and '-' otherwise. */
  lemma FileModeLayout(mode: int)
    ensures FileMode(mode)[0] == (if Bit(mode, 14) then 'd' else '-')
    ensures forall k :: 1 <= k < 10 ==> FileMode(mode)[k] == (if Bit(mode, 9 - k) then "rwxrwxrwx"[k - 1] else '-')
  {
    var r := FileMode(mode);
    forall k | 1 <= k < 10
      ensures r[k] == (if Bit(mode, 9 - k) then "rwxrwxrwx"[k - 1] else '-')
    {
      if k == 1 { } else if k == 2 { } else if k == 3 { } else if k == 4 { }
      else if k == 5 { } else if k == 6 { } else if k == 7 { } else if k == 8 { } else { }
    }
  }

  /** The sign extension done by toLong never changes the mode string:
      it is the string of the unsigned 16-bit mode field. */
  lemma FileModeOfToLong(bs: seq<Byte>)
    requires |bs| >= 2
    ensures FileMode(ToLong(bs)) == FileMode(U16(bs[0], bs[1]))
  {
    var u := U16(bs[0], bs[1]);
    if bs[1] >= 128 {
      forall k: nat | k < 16
        ensures Bit(u - 0x1_0000, k) == Bit(u, k)
      {
        BitBelow16(u, k);
      }
    }
  }
}
