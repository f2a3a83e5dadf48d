/** Block-pointer expansion of Volume.java: the direct slots of an inode
    record and the single-, double- and triple-indirect trees below it. */
module Pointers {
  import opened Bytes
  import opened Volumes

  /** The data blocks reachable from pointer `ptr` through `depth` levels of
      indirection: at depth 0 the pointer itself unless it is 0; deeper, the
      expansions of the 256 slots of block `ptr`, in slot order, with a zero
      pointer ending its branch. */
  function Expand(img: seq<Byte>, depth: nat, ptr: int): seq<int>
    decreases depth, 1, 0
  {
    if depth == 0 then (if ptr != 0 then [ptr] else [])
    else if ptr == 0 then []
    else Children(img, depth - 1, ptr * BLOCK_SIZE, MAX_POINTERS)
  }

  /** The depth-`depth` expansions of the first n slots of the pointer block
      at byte `base`, concatenated in slot order. */
  function Children(img: seq<Byte>, depth: nat, base: int, n: nat): seq<int>
    decreases depth, 2, n
  {
    if n == 0 then []
    else Children(img, depth, base, n - 1) + Expand(img, depth, ReadPtr(img, base + 4 * (n - 1)))
  }

  /** The toLong values of n consecutive 4-byte slots from byte `base`. */
  function Slots(img: seq<Byte>, base: int, n: nat): (r: seq<int>)
    ensures |r| == n
    ensures forall i :: 0 <= i < n ==> r[i] == ReadPtr(img, base + 4 * i)
  {
    seq(n, i requires 0 <= i < n => ReadPtr(img, base + 4 * i))
  }

  /** The non-zero elements of s, in order. */
  function NonZero(s: seq<int>): (r: seq<int>)
    ensures |r| <= |s|
    ensures forall k :: 0 <= k < |r| ==> r[k] != 0
  {
    if s == [] then []
    else NonZero(s[..|s| - 1]) + (if s[|s| - 1] != 0 then [s[|s| - 1]] else [])
  }

  /** One level down, the expansion is the slot contents with zeros dropped. */
  lemma {:induction false} ChildrenLeaf(img: seq<Byte>, base: int, n: nat)
    ensures Children(img, 0, base, n) == NonZero(Slots(img, base, n))
  {
    if n > 0 {
      ChildrenLeaf(img, base, n - 1);
      assert Slots(img, base, n)[..n - 1] == Slots(img, base, n - 1);
    }
  }

  function Pow256(d: nat): (r: nat)
    ensures r >= 1
  {
    if d == 0 then 1 else 256 * Pow256(d - 1)
  }

  /** An expansion never holds a zero block, holds only toLong values, and
      has at most 256^depth blocks. */
  lemma {:induction false} ExpandFacts(img: seq<Byte>, depth: nat, ptr: int)
    requires IsInt16(ptr)
    ensures |Expand(img, depth, ptr)| <= Pow256(depth)
    ensures forall k :: 0 <= k < |Expand(img, depth, ptr)| ==>
              Expand(img, depth, ptr)[k] != 0 && IsInt16(Expand(img, depth, ptr)[k])
    decreases depth, 1, 0
  {
    if depth > 0 && ptr != 0 {
      ChildrenFacts(img, depth - 1, ptr * BLOCK_SIZE, MAX_POINTERS);
    }
  }

  lemma {:induction false} ChildrenFacts(img: seq<Byte>, depth: nat, base: int, n: nat)
    ensures |Children(img, depth, base, n)| <= n * Pow256(depth)
    ensures forall k :: 0 <= k < |Children(img, depth, base, n)| ==>
              Children(img, depth, base, n)[k] != 0 && IsInt16(Children(img, depth, base, n)[k])
    decreases depth, 2, n
  {
    if n > 0 {
      var ptr := ReadPtr(img, base + 4 * (n - 1));
      ChildrenFacts(img, depth, base, n - 1);
      ExpandFacts(img, depth, ptr);
      var front := Children(img, depth, base, n - 1);
      var last := Expand(img, depth, ptr);
      assert Children(img, depth, base, n) == front + last;
      assert (n - 1) * Pow256(depth) + Pow256(depth) == n * Pow256(depth);
      forall k | 0 <= k < |front + last|
        ensures (front + last)[k] != 0 && IsInt16((front + last)[k])
      {
        if k >= |front| {
          assert (front + last)[k] == last[k - |front|];
        }
      }
    }
  }

  /** One more slot of a pointer block: the expansions so far, then the
      next slot's expansion. */
  lemma ChildrenStep(img: seq<Byte>, depth: nat, base: int, n: nat)
    ensures Children(img, depth, base, n + 1)
         == Children(img, depth, base, n) + Expand(img, depth, ReadPtr(img, base + n * 4))
  {
  }

  /** Volume.findDirect: the 12 direct slots at +40, zeros skipped. */
  method FindDirect(v: Volume, inodePointer: int, inodeNum: int) returns (dataBlocks: seq<int>)
    ensures dataBlocks == NonZero(Slots(v.image, InodeBase(v, inodePointer, inodeNum) + 40, 12))
    ensures dataBlocks == Children(v.image, 0, InodeBase(v, inodePointer, inodeNum) + 40, 12)
    ensures |dataBlocks| <= 12
  {
    var base := InodeBase(v, inodePointer, inodeNum) + 40;
    dataBlocks := [];
    var i := 0;
    while i < 12
      invariant 0 <= i <= 12
      invariant dataBlocks == Children(v.image, 0, base, i)
    {
      var x := ReadPtr(v.image, base + 4 * i);
      if x != 0 {
        dataBlocks := dataBlocks + [x];
      }
      i := i + 1;
    }
    ChildrenLeaf(v.image, base, 12);
  }

  /** Appending to an accumulator commutes with one more slot. */
  lemma AppendStep(acc: seq<int>, front: seq<int>, last: seq<int>)
    ensures (acc + front) + last == acc + (front + last)
  {
  }

  /** The innermost loop of the find methods: the non-zero slots of block
      `pointer` appended to `dataBlocks`; nothing when the pointer is 0. */
  method ScanLeaves(img: seq<Byte>, pointer: int, dataBlocks: seq<int>) returns (out: seq<int>)
    ensures out == dataBlocks + Expand(img, 1, pointer)
  {
    out := dataBlocks;
    if pointer == 0 {
      assert out == dataBlocks + [];
      return;
    }
    var base := pointer * 1024;
    var i := 0;
    while i < MAX_POINTERS
      invariant 0 <= i <= MAX_POINTERS
      invariant out == dataBlocks + Children(img, 0, base, i)
    {
      var x := ReadPtr(img, base + i * 4);
      ChildrenStep(img, 0, base, i);
      AppendStep(dataBlocks, Children(img, 0, base, i), Expand(img, 0, x));
      if x != 0 {
        out := out + [x];
      } else {
        assert out == out + [];
      }
      i := i + 1;
    }
  }

  /** The two inner loops of findDoubleIndirect and findTripleIndirect: each
      non-zero slot of block `pointer` scanned for leaves, in slot order. */
  method ScanDouble(img: seq<Byte>, pointer: int, dataBlocks: seq<int>) returns (out: seq<int>)
    ensures out == dataBlocks + Expand(img, 2, pointer)
  {
    out := dataBlocks;
    if pointer == 0 {
      assert out == dataBlocks + [];
      return;
    }
    var base := pointer * 1024;
    var i := 0;
    while i < MAX_POINTERS
      invariant 0 <= i <= MAX_POINTERS
      invariant out == dataBlocks + Children(img, 1, base, i)
    {
      var pointerDouble := ReadPtr(img, base + i * 4);
      ChildrenStep(img, 1, base, i);
      AppendStep(dataBlocks, Children(img, 1, base, i), Expand(img, 1, pointerDouble));
      out := ScanLeaves(img, pointerDouble, out);
      i := i + 1;
    }
  }

  /** Volume.findIndirect: the non-zero slots of the block named at +88, or
      nothing when that pointer is 0. */
  method FindIndirect(v: Volume, inodePointer: int, inodeNum: int) returns (dataBlocks: seq<int>)
    ensures var pointer := ReadPtr(v.image, InodeBase(v, inodePointer, inodeNum) + 88);
            && (pointer == 0 ==> dataBlocks == [])
            && (pointer != 0 ==> dataBlocks == NonZero(Slots(v.image, pointer * BLOCK_SIZE, MAX_POINTERS)))
    ensures dataBlocks == Expand(v.image, 1, ReadPtr(v.image, InodeBase(v, inodePointer, inodeNum) + 88))
    ensures |dataBlocks| <= 256
  {
    var pointer := ReadPtr(v.image, InodeBase(v, inodePointer, inodeNum) + 88);
    dataBlocks := ScanLeaves(v.image, pointer, []);
    ExpandFacts(v.image, 1, pointer);
    ChildrenLeaf(v.image, pointer * BLOCK_SIZE, MAX_POINTERS);
  }

  /** Volume.findDoubleIndirect: each non-zero slot of the block named at +92
      expanded one more level, in slot order. */
  method FindDoubleIndirect(v: Volume, inodePointer: int, inodeNum: int) returns (dataBlocks: seq<int>)
    ensures dataBlocks == Expand(v.image, 2, ReadPtr(v.image, InodeBase(v, inodePointer, inodeNum) + 92))
    ensures ReadPtr(v.image, InodeBase(v, inodePointer, inodeNum) + 92) == 0 ==> dataBlocks == []
    ensures |dataBlocks| <= 256 * 256
  {
    var pointer := ReadPtr(v.image, InodeBase(v, inodePointer, inodeNum) + 92);
    dataBlocks := ScanDouble(v.image, pointer, []);
    ExpandFacts(v.image, 2, pointer);
  }

  /** Volume.findTripleIndirect: the same, one level deeper, from +96. */
  method FindTripleIndirect(v: Volume, inodePointer: int, inodeNum: int) returns (dataBlocks: seq<int>)
    ensures dataBlocks == Expand(v.image, 3, ReadPtr(v.image, InodeBase(v, inodePointer, inodeNum) + 96))
    ensures ReadPtr(v.image, InodeBase(v, inodePointer, inodeNum) + 96) == 0 ==> dataBlocks == []
    ensures |dataBlocks| <= 256 * 256 * 256
  {
    var img := v.image;
    var pointer := ReadPtr(img, InodeBase(v, inodePointer, inodeNum) + 96);
    dataBlocks := [];
    ExpandFacts(img, 3, pointer);
    if pointer == 0 {
      return;
    }
    var base := pointer * 1024;
    var i := 0;
    while i < MAX_POINTERS
      invariant 0 <= i <= MAX_POINTERS
      invariant dataBlocks == Children(img, 2, base, i)
    {
      var pointerDouble := ReadPtr(img, base + i * 4);
      ChildrenStep(img, 2, base, i);
      dataBlocks := ScanDouble(img, pointerDouble, dataBlocks);
      i := i + 1;
    }
  }
}
