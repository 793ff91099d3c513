/** `alloc_block` (vma.c:48-283): insertion of a range at its sorted place,
    with the three overlap checks and the three ways of coalescing. */
module Allocation {
  import opened DoublyLinkedList
  import opened Regions

  /** The outcome `alloc_block` reports (its `printf` messages). */
  datatype AllocStatus =
    | Allocated
    | OutsideArena      // "The allocated address is outside the size of arena"
    | EndPastArena      // "The end address is past the size of the arena"
    | AlreadyAllocated  // "This zone was already allocated."

  /** A fresh miniblock: default mask and a buffer of `size` bytes (the
      source's buffer is uninitialised; the model zeroes it). */
  function NewMini(address: nat, size: nat): (m: Miniblock)
    ensures m.start == address && m.size == size && m.perm == DEF_PERM
    ensures |m.buffer| == size
  {
    Miniblock(address, size, DEF_PERM, seq(size, _ => 0))
  }

  /** A fresh block holding one fresh miniblock that spans it. */
  function NewBlock(address: nat, size: nat): (b: Block)
    ensures b.start == address && b.size == size && b.minis == [NewMini(address, size)]
  {
    Block(address, size, [NewMini(address, size)])
  }

  /** Where the scan of `alloc_block` stops: the first block that does not
      start below `address` (or the end of the list). */
  function FirstAtOrAfter(blocks: seq<Block>, address: nat): (j: nat)
    ensures j <= |blocks|
    ensures forall i :: 0 <= i < j ==> blocks[i].start < address
    ensures j < |blocks| ==> blocks[j].start >= address
  {
    if blocks == [] || blocks[0].start >= address then 0
    else 1 + FirstAtOrAfter(blocks[1..], address)
  }

  /** `[address, address + size)` shares a byte with block `b`. */
  predicate Overlaps(b: Block, address: nat, size: nat)
  {
    b.start < address + size && address < b.End()
  }

  /** `alloc_block`: the range checks, the "add first" case, then the scan
      for the insertion point and one of the three remaining cases. */
  function Alloc(blocks: seq<Block>, arenaSize: nat, address: nat, size: nat): (r: (seq<Block>, AllocStatus))
    ensures r.1 != Allocated ==> r.0 == blocks
  {
    if address >= arenaSize then (blocks, OutsideArena)
    else if address + size > arenaSize then (blocks, EndPastArena)
    else if blocks == [] || address + size < blocks[0].start then
      (InsertAt(blocks, 0, NewBlock(address, size)), Allocated)
    else
      var j := FirstAtOrAfter(blocks, address);
      if j == 0 then AllocBeforeFirst(blocks, address, size)
      else if j == |blocks| then AllocAfterLast(blocks, address, size)
      else AllocBetween(blocks, j, address, size)
  }

  /** No block starts below `address`: the range ends inside the first block
      or touches it, in which case a miniblock is prepended to it. */
  function AllocBeforeFirst(blocks: seq<Block>, address: nat, size: nat): (r: (seq<Block>, AllocStatus))
    requires |blocks| > 0
    ensures r.1 != Allocated ==> r.0 == blocks
  {
    var b := blocks[0];
    if address + size > b.start then (blocks, AlreadyAllocated)
    else (blocks[0 := b.(start := address, size := b.size + size,
                         minis := InsertAt(b.minis, 0, NewMini(address, size)))], Allocated)
  }

  /** Every block starts below `address`: the range overlaps the last block,
      touches it (a miniblock is appended at position `num_nodes + 1`, which
      the list clamps to the end) or becomes a new last block. */
  function AllocAfterLast(blocks: seq<Block>, address: nat, size: nat): (r: (seq<Block>, AllocStatus))
    requires |blocks| > 0
    ensures r.1 != Allocated ==> r.0 == blocks
  {
    var j := |blocks|;
    var b := blocks[j - 1];
    if b.End() > address then (blocks, AlreadyAllocated)
    else if b.End() == address then
      (blocks[j - 1 := b.(size := b.size + size,
                          minis := InsertAt(b.minis, |b.minis| + 1, NewMini(address, size)))], Allocated)
    else (InsertAt(blocks, |blocks| + 1, NewBlock(address, size)), Allocated)
  }

  /** The range falls between blocks `j - 1` and `j`: it overlaps one of
      them, touches both (the two merge around the new miniblock and block
      `j` leaves the list), touches one, or becomes a new block at `j`. */
  function AllocBetween(blocks: seq<Block>, j: nat, address: nat, size: nat): (r: (seq<Block>, AllocStatus))
    requires 0 < j < |blocks|
    ensures r.1 != Allocated ==> r.0 == blocks
  {
    var b, bn := blocks[j - 1], blocks[j];
    var m := NewMini(address, size);
    if b.End() > address || address + size > bn.start then (blocks, AlreadyAllocated)
    else if b.End() == address && address + size == bn.start then
      var merged := b.(size := b.size + size + bn.size,
                       minis := InsertAt(b.minis, |b.minis| + 1, m) + bn.minis);
      (RemoveAt(blocks[j - 1 := merged], j), Allocated)
    else if b.End() == address then
      (blocks[j - 1 := b.(size := b.size + size, minis := InsertAt(b.minis, |b.minis| + 1, m))], Allocated)
    else if address + size == bn.start then
      (blocks[j := bn.(start := address, size := bn.size + size, minis := InsertAt(bn.minis, 0, m))], Allocated)
    else (InsertAt(blocks, j, NewBlock(address, size)), Allocated)
  }

  /** The block a successful allocation leaves around the new range: the left
      neighbour if it touches, the new miniblock, the right neighbour if it
      touches. */
  function Merged(blocks: seq<Block>, j: nat, address: nat, size: nat, left: bool, right: bool): Block
    requires j <= |blocks|
    requires left ==> j > 0
    requires right ==> j < |blocks|
  {
    Block(if left then blocks[j - 1].start else address,
          (if left then blocks[j - 1].size else 0) + size + (if right then blocks[j].size else 0),
          (if left then blocks[j - 1].minis else []) + [NewMini(address, size)]
            + (if right then blocks[j].minis else []))
  }

  /** The new range touches the end of some block. */
  predicate TouchesLeft(blocks: seq<Block>, address: nat)
  {
    exists i :: 0 <= i < |blocks| && blocks[i].End() == address
  }

  /** The new range ends where some block starts. */
  predicate TouchesRight(blocks: seq<Block>, address: nat, size: nat)
  {
    exists i :: 0 <= i < |blocks| && blocks[i].start == address + size
  }

  lemma InsertAtFront<T>(s: seq<T>, x: T)
    ensures InsertAt(s, 0, x) == [x] + s
  {
  }

  /** The result of a successful allocation, as `AllocShape` states it. */
  function Shaped(blocks: seq<Block>, j: nat, address: nat, size: nat): seq<Block>
    requires j <= |blocks|
  {
    var left := j > 0 && blocks[j - 1].End() == address;
    var right := j < |blocks| && blocks[j].start == address + size;
    blocks[..if left then j - 1 else j]
      + [Merged(blocks, j, address, size, left, right)]
      + blocks[if right then j + 1 else j..]
  }

  lemma BeforeFirstShape(blocks: seq<Block>, address: nat, size: nat)
    requires |blocks| > 0 && blocks[0].start <= address + size
    requires AllocBeforeFirst(blocks, address, size).1 == Allocated
    ensures address + size == blocks[0].start
    ensures AllocBeforeFirst(blocks, address, size).0 == Shaped(blocks, 0, address, size)
  {
    InsertAtFront(blocks[0].minis, NewMini(address, size));
    assert AllocBeforeFirst(blocks, address, size).0
      == [Merged(blocks, 0, address, size, false, true)] + blocks[1..];
  }

  lemma AfterLastShape(blocks: seq<Block>, address: nat, size: nat)
    requires |blocks| > 0
    requires AllocAfterLast(blocks, address, size).1 == Allocated
    ensures blocks[|blocks| - 1].End() <= address
    ensures AllocAfterLast(blocks, address, size).0 == Shaped(blocks, |blocks|, address, size)
  {
    var j := |blocks|;
    var b := blocks[j - 1];
    var r := AllocAfterLast(blocks, address, size).0;
    if b.End() == address {
      InsertPastEndAppends(b.minis, |b.minis| + 1, NewMini(address, size));
      assert Merged(blocks, j, address, size, true, false).minis == b.minis + [NewMini(address, size)];
      assert r == blocks[..j - 1] + [Merged(blocks, j, address, size, true, false)];
    } else {
      assert Merged(blocks, j, address, size, false, false) == NewBlock(address, size);
      assert r == blocks + [NewBlock(address, size)];
    }
  }

  lemma BetweenShape(blocks: seq<Block>, j: nat, address: nat, size: nat)
    requires 0 < j < |blocks|
    requires AllocBetween(blocks, j, address, size).1 == Allocated
    ensures blocks[j - 1].End() <= address && address + size <= blocks[j].start
    ensures AllocBetween(blocks, j, address, size).0 == Shaped(blocks, j, address, size)
  {
    var b, bn := blocks[j - 1], blocks[j];
    var m := NewMini(address, size);
    var r := AllocBetween(blocks, j, address, size).0;
    if b.End() == address && address + size == bn.start {
      InsertPastEndAppends(b.minis, |b.minis| + 1, m);
      var mg := Merged(blocks, j, address, size, true, true);
      assert mg.minis == b.minis + [m] + bn.minis;
      var t := blocks[j - 1 := mg];
      assert RemoveAt(t, j) == t[..j] + t[j + 1..];
      assert r == blocks[..j - 1] + [mg] + blocks[j + 1..];
    } else if b.End() == address {
      InsertPastEndAppends(b.minis, |b.minis| + 1, m);
      var mg := Merged(blocks, j, address, size, true, false);
      assert mg.minis == b.minis + [m];
      assert r == blocks[..j - 1] + [mg] + blocks[j..];
    } else if address + size == bn.start {
      InsertAtFront(bn.minis, m);
      var mg := Merged(blocks, j, address, size, false, true);
      assert mg.minis == [m] + bn.minis;
      assert r == blocks[..j] + [mg] + blocks[j + 1..];
    } else {
      assert Merged(blocks, j, address, size, false, false) == NewBlock(address, size);
      assert r == blocks[..j] + [NewBlock(address, size)] + blocks[j..];
    }
  }

  /** Every successful branch of `Alloc` has one shape: the blocks before the
      insertion point, one block made of the touching neighbours and the new
      miniblock, the blocks after. */
  lemma AllocShape(blocks: seq<Block>, arenaSize: nat, address: nat, size: nat)
    requires Alloc(blocks, arenaSize, address, size).1 == Allocated
    ensures var j := FirstAtOrAfter(blocks, address);
      && address < arenaSize && address + size <= arenaSize
      && (j > 0 ==> blocks[j - 1].End() <= address)
      && (j < |blocks| ==> address + size <= blocks[j].start)
      && Alloc(blocks, arenaSize, address, size).0 == Shaped(blocks, j, address, size)
  {
    var j := FirstAtOrAfter(blocks, address);
    if blocks == [] || address + size < blocks[0].start {
      assert j == 0;
      assert Merged(blocks, j, address, size, false, false) == NewBlock(address, size);
      assert blocks[..0] == [] && blocks[0..] == blocks;
      assert Alloc(blocks, arenaSize, address, size).0 == [NewBlock(address, size)] + blocks;
    } else if j == 0 {
      BeforeFirstShape(blocks, address, size);
    } else if j == |blocks| {
      AfterLastShape(blocks, address, size);
    } else {
      BetweenShape(blocks, j, address, size);
    }
  }

  /** Where a successful allocation puts the range: between blocks `j - 1`
      and `j`, overlapping neither, inside the arena. */
  predicate FitsAt(blocks: seq<Block>, arenaSize: nat, j: nat, address: nat, size: nat)
  {
    && j <= |blocks|
    && address + size <= arenaSize
    && (forall i :: 0 <= i < j ==> blocks[i].start < address)
    && (j > 0 ==> blocks[j - 1].End() <= address)
    && (j < |blocks| ==> address + size <= blocks[j].start)
  }

  lemma AllocFits(blocks: seq<Block>, arenaSize: nat, address: nat, size: nat)
    requires Alloc(blocks, arenaSize, address, size).1 == Allocated
    ensures var j := FirstAtOrAfter(blocks, address);
      && FitsAt(blocks, arenaSize, j, address, size)
      && Alloc(blocks, arenaSize, address, size).0 == Shaped(blocks, j, address, size)
  {
    AllocShape(blocks, arenaSize, address, size);
  }

  /** Blocks before the insertion point end at or before `address`; blocks
      from it on start at or after the end of the new range. */
  lemma FitsNeighbours(blocks: seq<Block>, arenaSize: nat, j: nat, address: nat, size: nat, i: nat)
    requires WellFormed(blocks) && FitsAt(blocks, arenaSize, j, address, size)
    requires i < |blocks|
    ensures i < j ==> blocks[i].End() <= address
    ensures j <= i ==> address + size <= blocks[i].start
  {
    if i + 1 < j {
      assert blocks[i].End() < blocks[j - 1].start;
    } else if i > j {
      assert blocks[j].End() < blocks[i].start;
    }
  }

  /** The block around the new range is tiled and spans from the left
      neighbour's start (or `address`) to the right neighbour's end (or the
      range's end). */
  lemma MergedOk(blocks: seq<Block>, j: nat, address: nat, size: nat, left: bool, right: bool) returns (mg: Block)
    requires j <= |blocks| && size > 0
    requires left ==> j > 0 && BlockOk(blocks[j - 1]) && blocks[j - 1].End() == address
    requires right ==> j < |blocks| && BlockOk(blocks[j]) && blocks[j].start == address + size
    ensures mg == Merged(blocks, j, address, size, left, right)
    ensures BlockOk(mg)
    ensures mg.start == (if left then blocks[j - 1].start else address)
    ensures mg.End() == (if right then blocks[j].End() else address + size)
  {
    mg := Merged(blocks, j, address, size, left, right);
    var m := NewMini(address, size);
    var lo := if left then blocks[j - 1].start else address;
    var hi := if right then blocks[j].End() else address + size;
    assert Tiles([m], address, address + size);
    var mid := if left then blocks[j - 1].minis + [m] else [m];
    if left {
      TilesJoin(blocks[j - 1].minis, [m], lo, address, address + size);
    }
    assert Tiles(mid, lo, address + size);
    if right {
      TilesJoin(mid, blocks[j].minis, lo, address + size, hi);
      assert mg.minis == mid + blocks[j].minis;
    } else {
      assert mg.minis == mid;
    }
  }

  lemma ShapedValid(blocks: seq<Block>, arenaSize: nat, j: nat, address: nat, size: nat)
    requires Valid(blocks, arenaSize) && size > 0
    requires FitsAt(blocks, arenaSize, j, address, size)
    ensures Valid(Shaped(blocks, j, address, size), arenaSize)
  {
    var left := j > 0 && blocks[j - 1].End() == address;
    var right := j < |blocks| && blocks[j].start == address + size;
    var p, s, mg := ShapedSplice(blocks, j, address, size, left, right);
    MergedGaps(blocks, arenaSize, j, address, size, left, right, p, s, mg);
    ValidReplaceRange(blocks, arenaSize, p, s, mg);
  }

  /** `Shaped` as the blocks before `p`, the merged block, the blocks from
      `s` on. */
  lemma ShapedSplice(blocks: seq<Block>, j: nat, address: nat, size: nat, left: bool, right: bool)
    returns (p: nat, s: nat, mg: Block)
    requires WellFormed(blocks) && j <= |blocks| && size > 0
    requires left == (j > 0 && blocks[j - 1].End() == address)
    requires right == (j < |blocks| && blocks[j].start == address + size)
    ensures p == (if left then j - 1 else j) && s == (if right then j + 1 else j) && p <= s <= |blocks|
    ensures BlockOk(mg)
    ensures mg.start == (if left then blocks[j - 1].start else address)
    ensures mg.End() == (if right then blocks[j].End() else address + size)
    ensures Shaped(blocks, j, address, size) == blocks[..p] + [mg] + blocks[s..]
  {
    p := if left then j - 1 else j;
    s := if right then j + 1 else j;
    mg := MergedOk(blocks, j, address, size, left, right);
  }

  /** The merged block keeps clear of the blocks around it and of the
      arena end. */
  lemma MergedGaps(blocks: seq<Block>, arenaSize: nat, j: nat, address: nat, size: nat,
                   left: bool, right: bool, p: nat, s: nat, mg: Block)
    requires Valid(blocks, arenaSize) && size > 0
    requires FitsAt(blocks, arenaSize, j, address, size)
    requires left == (j > 0 && blocks[j - 1].End() == address)
    requires right == (j < |blocks| && blocks[j].start == address + size)
    requires p == (if left then j - 1 else j) && s == (if right then j + 1 else j)
    requires mg.start == (if left then blocks[j - 1].start else address)
    requires mg.End() == (if right then blocks[j].End() else address + size)
    ensures p > 0 ==> blocks[p - 1].End() < mg.start
    ensures s < |blocks| ==> mg.End() < blocks[s].start
    ensures s == |blocks| ==> mg.End() <= arenaSize
  {
    if p > 0 && left {
      assert blocks[p - 1].End() < blocks[j - 1].start;
    }
    if s < |blocks| && right {
      assert blocks[j].End() < blocks[s].start;
    }
  }

  /** A successful allocation keeps the arena invariant. */
  lemma AllocPreservesValid(blocks: seq<Block>, arenaSize: nat, address: nat, size: nat)
    requires Valid(blocks, arenaSize) && size > 0
    requires Alloc(blocks, arenaSize, address, size).1 == Allocated
    ensures Valid(Alloc(blocks, arenaSize, address, size).0, arenaSize)
  {
    AllocFits(blocks, arenaSize, address, size);
    ShapedValid(blocks, arenaSize, FirstAtOrAfter(blocks, address), address, size);
  }

  /** The miniblocks after a successful allocation: those of the blocks
      before the insertion point, the new one, those of the blocks after. */
  lemma ShapedMinisSplit(blocks: seq<Block>, j: nat, address: nat, size: nat)
    requires j <= |blocks|
    ensures AllMinis(Shaped(blocks, j, address, size))
      == AllMinis(blocks[..j]) + [NewMini(address, size)] + AllMinis(blocks[j..])
  {
    var left := j > 0 && blocks[j - 1].End() == address;
    var right := j < |blocks| && blocks[j].start == address + size;
    var pre := blocks[..if left then j - 1 else j];
    var post := blocks[if right then j + 1 else j..];
    var mg := Merged(blocks, j, address, size, left, right);
    var a := if left then blocks[j - 1].minis else [];
    var b := if right then blocks[j].minis else [];
    AllMinisSplice(pre, mg, post);
    assert Shaped(blocks, j, address, size) == pre + [mg] + post;
    if left {
      TakeLast(blocks, j);
      AllMinisConcat(pre, [blocks[j - 1]]);
      AllMinisSingle(blocks[j - 1]);
    } else {
      AppendEmpty(AllMinis(pre));
    }
    assert AllMinis(blocks[..j]) == AllMinis(pre) + a;
    if right {
      DropFirst(blocks, j);
      AllMinisConcat([blocks[j]], post);
      AllMinisSingle(blocks[j]);
    } else {
      AppendEmpty(AllMinis(post));
    }
    assert AllMinis(blocks[j..]) == b + AllMinis(post);
    Regroup(AllMinis(pre), a, NewMini(address, size), b, AllMinis(post));
  }

  /** The miniblocks of the blocks before the insertion point end by
      `address`; those of the blocks after start at or after the range's end. */
  lemma FitsMinis(blocks: seq<Block>, arenaSize: nat, j: nat, address: nat, size: nat)
    requires WellFormed(blocks) && FitsAt(blocks, arenaSize, j, address, size)
    ensures forall m :: m in AllMinis(blocks[..j]) ==> m.End() <= address
    ensures forall m :: m in AllMinis(blocks[j..]) ==> address + size <= m.start
  {
    forall b | b in blocks[..j] ensures BlockOk(b) && 0 <= b.start && b.End() <= address {
      var i :| 0 <= i < j && blocks[i] == b;
      FitsNeighbours(blocks, arenaSize, j, address, size, i);
    }
    AllMinisBounds(blocks[..j], 0, address);
    if j < |blocks| {
      var hi := blocks[|blocks| - 1].End();
      forall b | b in blocks[j..] ensures BlockOk(b) && address + size <= b.start && b.End() <= hi {
        var i :| j <= i < |blocks| && blocks[i] == b;
        FitsNeighbours(blocks, arenaSize, j, address, size, i);
        if i < |blocks| - 1 {
          assert blocks[i].End() < blocks[|blocks| - 1].start;
        }
      }
      AllMinisBounds(blocks[j..], address + size, hi);
    } else {
      assert blocks[j..] == [];
    }
  }

  /** `r` is `ms` with `m` inserted at position `q`, after every miniblock
      that ends by `m`'s start and before every one that starts at or after
      its end. */
  predicate InsertedInOrder(ms: seq<Miniblock>, q: nat, m: Miniblock, r: seq<Miniblock>)
  {
    && q <= |ms|
    && r == ms[..q] + [m] + ms[q..]
    && (forall i :: 0 <= i < q ==> ms[i].End() <= m.start)
    && (forall i :: q <= i < |ms| ==> m.End() <= ms[i].start)
  }

  lemma ShapedMinis(blocks: seq<Block>, arenaSize: nat, j: nat, address: nat, size: nat)
    requires WellFormed(blocks) && FitsAt(blocks, arenaSize, j, address, size)
    ensures var ms := AllMinis(blocks);
      exists q :: InsertedInOrder(ms, q, NewMini(address, size), AllMinis(Shaped(blocks, j, address, size)))
  {
    var xs, ys := AllMinis(blocks[..j]), AllMinis(blocks[j..]);
    var m := NewMini(address, size);
    ShapedMinisSplit(blocks, j, address, size);
    FitsMinis(blocks, arenaSize, j, address, size);
    SplitAllMinis(blocks, j);
    InsertBetween(xs, m, ys);
  }

  /** A miniblock placed between two runs that end before it and start after
      it is inserted in order. */
  lemma InsertBetween(xs: seq<Miniblock>, m: Miniblock, ys: seq<Miniblock>)
    requires forall x :: x in xs ==> x.End() <= m.start
    requires forall y :: y in ys ==> m.End() <= y.start
    ensures InsertedInOrder(xs + ys, |xs|, m, xs + [m] + ys)
  {
    ConcatParts(xs, ys);
    var ms := xs + ys;
    forall i | 0 <= i < |xs| ensures ms[i].End() <= m.start {
      assert ms[i] == xs[i];
    }
    forall i | |xs| <= i < |ms| ensures m.End() <= ms[i].start {
      assert ms[i] == ys[i - |xs|];
    }
  }

  /** A successful allocation adds exactly one miniblock to the arena, the new
      one, in address order among the others; nothing else changes. */
  lemma AllocInsertsMini(blocks: seq<Block>, arenaSize: nat, address: nat, size: nat)
    requires WellFormed(blocks)
    requires Alloc(blocks, arenaSize, address, size).1 == Allocated
    ensures var ms := AllMinis(blocks);
      exists q :: InsertedInOrder(ms, q, NewMini(address, size), AllMinis(Alloc(blocks, arenaSize, address, size).0))
  {
    AllocFits(blocks, arenaSize, address, size);
    ShapedMinis(blocks, arenaSize, FirstAtOrAfter(blocks, address), address, size);
  }

  lemma ShapedCount(blocks: seq<Block>, arenaSize: nat, j: nat, address: nat, size: nat)
    requires WellFormed(blocks) && FitsAt(blocks, arenaSize, j, address, size)
    ensures |Shaped(blocks, j, address, size)|
      == |blocks| + 1 - (if TouchesLeft(blocks, address) then 1 else 0)
                      - (if TouchesRight(blocks, address, size) then 1 else 0)
  {
    var left := j > 0 && blocks[j - 1].End() == address;
    var right := j < |blocks| && blocks[j].start == address + size;
    if TouchesLeft(blocks, address) {
      var i :| 0 <= i < |blocks| && blocks[i].End() == address;
      BlockNonEmpty(blocks[i]);
      FitsNeighbours(blocks, arenaSize, j, address, size, i);
      assert left;
    }
    if TouchesRight(blocks, address, size) {
      var i :| 0 <= i < |blocks| && blocks[i].start == address + size;
      if i > j {
        assert false;
      }
      assert right;
    }
  }

  /** Allocating next to blocks merges instead of adding: one block more when
      the range touches nothing, as many when it touches one side, one fewer
      when it touches both. */
  lemma AllocBlockCount(blocks: seq<Block>, arenaSize: nat, address: nat, size: nat)
    requires WellFormed(blocks)
    requires Alloc(blocks, arenaSize, address, size).1 == Allocated
    ensures |Alloc(blocks, arenaSize, address, size).0|
      == |blocks| + 1 - (if TouchesLeft(blocks, address) then 1 else 0)
                      - (if TouchesRight(blocks, address, size) then 1 else 0)
  {
    AllocFits(blocks, arenaSize, address, size);
    ShapedCount(blocks, arenaSize, FirstAtOrAfter(blocks, address), address, size);
  }

  /** When `Alloc` reports an overlap, some block really overlaps. */
  lemma RejectWitness(blocks: seq<Block>, arenaSize: nat, address: nat, size: nat)
    requires WellFormed(blocks)
    requires Alloc(blocks, arenaSize, address, size).1 == AlreadyAllocated
    ensures address < arenaSize && address + size <= arenaSize
    ensures exists i :: 0 <= i < |blocks| && Overlaps(blocks[i], address, size)
  {
    var j := FirstAtOrAfter(blocks, address);
    if j == 0 {
      BlockNonEmpty(blocks[0]);
      assert Overlaps(blocks[0], address, size);
    } else if j == |blocks| {
      assert Overlaps(blocks[j - 1], address, size);
    } else if blocks[j - 1].End() > address {
      assert Overlaps(blocks[j - 1], address, size);
    } else {
      BlockNonEmpty(blocks[j]);
      assert Overlaps(blocks[j], address, size);
    }
  }

  /** Allocation fails with "already allocated" exactly when the range, inside
      the arena, shares a byte with an existing block; on every failure the
      blocks are unchanged.  A range of size 0 shares a byte with a block
      only when `address` lies strictly inside it. */
  lemma AllocOutcome(blocks: seq<Block>, arenaSize: nat, address: nat, size: nat)
    requires WellFormed(blocks)
    ensures var (r, st) := Alloc(blocks, arenaSize, address, size);
      && (st == OutsideArena <==> address >= arenaSize)
      && (st == EndPastArena <==> address < arenaSize < address + size)
      && (st == AlreadyAllocated <==>
            && address < arenaSize && address + size <= arenaSize
            && exists i :: 0 <= i < |blocks| && Overlaps(blocks[i], address, size))
      && (st == Allocated <==>
            && address < arenaSize && address + size <= arenaSize
            && forall i :: 0 <= i < |blocks| ==> !Overlaps(blocks[i], address, size))
      && (st != Allocated ==> r == blocks)
  {
    var st := Alloc(blocks, arenaSize, address, size).1;
    if st == Allocated {
      AllocFits(blocks, arenaSize, address, size);
      forall i | 0 <= i < |blocks| ensures !Overlaps(blocks[i], address, size) {
        FitsNeighbours(blocks, arenaSize, FirstAtOrAfter(blocks, address), address, size, i);
      }
    } else if st == AlreadyAllocated {
      RejectWitness(blocks, arenaSize, address, size);
    }
  }

  /** As written, `alloc_block` accepts a size of 0.  In an arena of 20,
      `ALLOC_BLOCK 0 5`, `ALLOC_BLOCK 5 0` and `ALLOC_BLOCK 5 5` all succeed
      and leave one block `[0, 10)` whose miniblocks are `[0, 5)`, an empty
      `[5, 5)` and `[5, 10)`: the arena invariant, which
      `AllocPreservesValid` keeps for every non-empty allocation, is lost. */
  lemma ZeroSizeBreaksValid()
    ensures Alloc([], 20, 0, 5) == ([NewBlock(0, 5)], Allocated)
    ensures Alloc([NewBlock(0, 5)], 20, 5, 0)
      == ([Block(0, 5, [NewMini(0, 5), NewMini(5, 0)])], Allocated)
    ensures Alloc([Block(0, 5, [NewMini(0, 5), NewMini(5, 0)])], 20, 5, 5)
      == ([Block(0, 10, [NewMini(0, 5), NewMini(5, 0), NewMini(5, 5)])], Allocated)
    ensures Valid([NewBlock(0, 5)], 20)
    ensures !Valid([Block(0, 10, [NewMini(0, 5), NewMini(5, 0), NewMini(5, 5)])], 20)
  {
    var m0, mz, m5 := NewMini(0, 5), NewMini(5, 0), NewMini(5, 5);
    assert InsertAt([], 0, NewBlock(0, 5)) == [NewBlock(0, 5)];
    var b1 := NewBlock(0, 5);
    assert FirstAtOrAfter([b1], 5) == 1;
    assert InsertAt([m0], 2, mz) == [m0, mz];
    assert b1.End() == 5 && b1.minis == [m0];
    assert b1.(size := b1.size + 0, minis := InsertAt(b1.minis, |b1.minis| + 1, mz)) == Block(0, 5, [m0, mz]);
    assert [b1][0 := Block(0, 5, [m0, mz])] == [Block(0, 5, [m0, mz])];
    assert AllocAfterLast([b1], 5, 0) == ([Block(0, 5, [m0, mz])], Allocated);
    var b2 := Block(0, 5, [m0, mz]);
    assert FirstAtOrAfter([b2], 5) == 1;
    assert InsertAt([m0, mz], 3, m5) == [m0, mz, m5];
    assert b2.End() == 5 && b2.minis == [m0, mz];
    assert b2.(size := b2.size + 5, minis := InsertAt(b2.minis, |b2.minis| + 1, m5)) == Block(0, 10, [m0, mz, m5]);
    assert [b2][0 := Block(0, 10, [m0, mz, m5])] == [Block(0, 10, [m0, mz, m5])];
    assert AllocAfterLast([b2], 5, 5) == ([Block(0, 10, [m0, mz, m5])], Allocated);
    assert !MiniOk(mz);
  }
}
