/** `free_block` (vma.c:304-383): removal of the miniblock that starts at an
    address, shrinking, splitting or removing its block. */
module Deallocation {
  import opened DoublyLinkedList
  import opened Regions

  /** The outcome `free_block` reports. */
  datatype FreeStatus =
    | Freed
    | InvalidFree  // "Invalid address for free."

  /** The block scan of `free_block`: the first block with
      `start <= address <= start + size` (upper bound included, as written),
      or the end of the list. */
  function FindContaining(blocks: seq<Block>, address: nat): (idx: nat)
    ensures idx <= |blocks|
    ensures forall i :: 0 <= i < idx ==> !(blocks[i].start <= address <= blocks[i].End())
    ensures idx < |blocks| ==> blocks[idx].start <= address <= blocks[idx].End()
  {
    if blocks == [] then 0
    else if blocks[0].start <= address <= blocks[0].End() then 0
    else 1 + FindContaining(blocks[1..], address)
  }

  /** The miniblock scan: the first miniblock starting at `address`, or the
      end of the list. */
  function FindStart(ms: seq<Miniblock>, address: nat): (k: nat)
    ensures k <= |ms|
    ensures forall i :: 0 <= i < k ==> ms[i].start != address
    ensures k < |ms| ==> ms[k].start == address
  {
    if ms == [] then 0
    else if ms[0].start == address then 0
    else 1 + FindStart(ms[1..], address)
  }

  /** `free_block`: find the block, then free its first miniblock, its last
      one or an inner one; anything else is an invalid free. */
  function Free(blocks: seq<Block>, address: nat): (r: (seq<Block>, FreeStatus))
    requires WellFormed(blocks)
    ensures r.1 == InvalidFree ==> r.0 == blocks
  {
    var idx := FindContaining(blocks, address);
    if idx == |blocks| then (blocks, InvalidFree)
    else
      var b := blocks[idx];
      if b.start == address then (FreeFirst(blocks, idx), Freed)
      else
        var k := FindStart(b.minis, address);
        if k == |b.minis| then (blocks, InvalidFree)
        else if k == |b.minis| - 1 then (FreeLast(blocks, idx), Freed)
        else (FreeInner(blocks, idx, k), Freed)
  }

  /** The first miniblock leaves the list; its size moves the block's start
      forward and shrinks it; a block left without miniblocks leaves the
      block list. */
  function FreeFirst(blocks: seq<Block>, idx: nat): seq<Block>
    requires WellFormed(blocks) && idx < |blocks|
  {
    var b := blocks[idx];
    TilesBounds(b.minis, b.start, b.End(), 0);
    var m := b.minis[0];
    var rest := RemoveAt(b.minis, 0);
    if rest == [] then RemoveAt(blocks, idx)
    else blocks[idx := Block(b.start + m.size, b.size - m.size, rest)]
  }

  /** The last miniblock leaves the list and the block shrinks by its size. */
  function FreeLast(blocks: seq<Block>, idx: nat): seq<Block>
    requires WellFormed(blocks) && idx < |blocks|
  {
    var b := blocks[idx];
    var k := |b.minis| - 1;
    TilesBounds(b.minis, b.start, b.End(), k);
    blocks[idx := b.(size := b.size - b.minis[k].size, minis := RemoveAt(b.minis, k))]
  }

  /** Inner miniblock `k` leaves the list, which is cut behind it: the block
      keeps the miniblocks before it (`left_size` bytes) and a new block at
      `idx + 1` takes those after it. */
  function FreeInner(blocks: seq<Block>, idx: nat, k: nat): seq<Block>
    requires WellFormed(blocks) && idx < |blocks|
    requires 0 < k < |blocks[idx].minis| - 1
  {
    var b := blocks[idx];
    var ms := b.minis;
    TilesStart(ms, b.start, b.End(), k);
    TilesBounds(ms, b.start, b.End(), k);
    var leftSize := SumSizes(ms[..k]);
    var rest := RemoveAt(ms, k);
    var left := b.(size := leftSize, minis := rest[..k]);
    var right := Block(ms[k + 1].start, b.size - leftSize - ms[k].size, rest[k..]);
    InsertAt(blocks[idx := left], idx + 1, right)
  }

  /** A run of consecutive miniblocks as a block of its own. */
  function RunBlock(run: seq<Miniblock>): (b: Block)
    requires run != []
    ensures b.minis == run
  {
    Block(run[0].start, SumSizes(run), run)
  }

  /** What is left of a block whose miniblock `k` is freed: the run before
      it and the run after it, each as a block, when not empty. */
  function Remaining(ms: seq<Miniblock>, k: nat): seq<Block>
    requires k < |ms|
  {
    (if k == 0 then [] else [RunBlock(ms[..k])])
      + (if k == |ms| - 1 then [] else [RunBlock(ms[k + 1..])])
  }

  lemma RemoveAtFront<T>(s: seq<T>)
    requires |s| > 0
    ensures RemoveAt(s, 0) == s[1..]
  {
  }

  lemma FirstShape(blocks: seq<Block>, idx: nat)
    requires WellFormed(blocks) && idx < |blocks|
    ensures FreeFirst(blocks, idx) == blocks[..idx] + Remaining(blocks[idx].minis, 0) + blocks[idx + 1..]
  {
    var b := blocks[idx];
    var ms := b.minis;
    RemoveAtFront(ms);
    if |ms| == 1 {
      assert RemoveAt(blocks, idx) == blocks[..idx] + blocks[idx + 1..];
    } else {
      TilesSplit(ms, b.start, b.End(), 1);
      TilesSum(ms[1..], ms[1].start, b.End());
      assert FreeFirst(blocks, idx) == blocks[idx := RunBlock(ms[1..])];
      assert blocks[idx := RunBlock(ms[1..])] == blocks[..idx] + [RunBlock(ms[1..])] + blocks[idx + 1..];
    }
  }

  lemma LastShape(blocks: seq<Block>, idx: nat)
    requires WellFormed(blocks) && idx < |blocks| && |blocks[idx].minis| > 1
    ensures var k := |blocks[idx].minis| - 1;
      FreeLast(blocks, idx) == blocks[..idx] + Remaining(blocks[idx].minis, k) + blocks[idx + 1..]
  {
    var b := blocks[idx];
    var ms := b.minis;
    var k := |ms| - 1;
    TilesSplit(ms, b.start, b.End(), k);
    TilesSum(ms[..k], b.start, ms[k].start);
    assert RemoveAt(ms, k) == ms[..k];
    assert FreeLast(blocks, idx) == blocks[idx := RunBlock(ms[..k])];
    assert blocks[idx := RunBlock(ms[..k])] == blocks[..idx] + [RunBlock(ms[..k])] + blocks[idx + 1..];
  }

  lemma InnerShape(blocks: seq<Block>, idx: nat, k: nat)
    requires WellFormed(blocks) && idx < |blocks|
    requires 0 < k < |blocks[idx].minis| - 1
    ensures FreeInner(blocks, idx, k) == blocks[..idx] + Remaining(blocks[idx].minis, k) + blocks[idx + 1..]
  {
    var b := blocks[idx];
    var ms := b.minis;
    TilesStart(ms, b.start, b.End(), k);
    TilesSplit(ms, b.start, b.End(), k + 1);
    TilesSum(ms[k + 1..], ms[k + 1].start, b.End());
    var rest := RemoveAt(ms, k);
    assert rest[..k] == ms[..k] && rest[k..] == ms[k + 1..];
    var left, right := RunBlock(ms[..k]), RunBlock(ms[k + 1..]);
    assert FreeInner(blocks, idx, k) == InsertAt(blocks[idx := left], idx + 1, right);
    assert InsertAt(blocks[idx := left], idx + 1, right) == blocks[..idx] + [left, right] + blocks[idx + 1..];
  }

  /** Every successful free replaces the block holding the freed miniblock by
      the runs before and after it; the freed miniblock is the first of that
      block starting at `address`. */
  lemma FreeShape(blocks: seq<Block>, address: nat)
    requires WellFormed(blocks)
    requires Free(blocks, address).1 == Freed
    ensures var idx := FindContaining(blocks, address);
      && idx < |blocks|
      && var k := FindStart(blocks[idx].minis, address);
      && k < |blocks[idx].minis|
      && blocks[idx].minis[k].start == address
      && Free(blocks, address).0 == blocks[..idx] + Remaining(blocks[idx].minis, k) + blocks[idx + 1..]
  {
    var idx := FindContaining(blocks, address);
    var b := blocks[idx];
    if b.start == address {
      FreeShapeFirst(blocks, address, idx);
    } else {
      FreeShapeLater(blocks, address, idx);
    }
  }

  lemma FreeShapeFirst(blocks: seq<Block>, address: nat, idx: nat)
    requires WellFormed(blocks)
    requires idx == FindContaining(blocks, address) < |blocks|
    requires blocks[idx].start == address
    ensures FindStart(blocks[idx].minis, address) == 0
    ensures Free(blocks, address).0 == blocks[..idx] + Remaining(blocks[idx].minis, 0) + blocks[idx + 1..]
  {
    assert Free(blocks, address).0 == FreeFirst(blocks, idx);
    FirstShape(blocks, idx);
  }

  lemma FreeShapeLater(blocks: seq<Block>, address: nat, idx: nat)
    requires WellFormed(blocks)
    requires idx == FindContaining(blocks, address) < |blocks|
    requires blocks[idx].start != address
    requires Free(blocks, address).1 == Freed
    ensures var k := FindStart(blocks[idx].minis, address);
      && k < |blocks[idx].minis|
      && Free(blocks, address).0 == blocks[..idx] + Remaining(blocks[idx].minis, k) + blocks[idx + 1..]
  {
    var ms := blocks[idx].minis;
    var k := FindStart(ms, address);
    if k == |ms| - 1 {
      assert Free(blocks, address).0 == FreeLast(blocks, idx);
      LastShape(blocks, idx);
    } else {
      assert Free(blocks, address).0 == FreeInner(blocks, idx, k);
      InnerShape(blocks, idx, k);
    }
  }

  /** The runs left of a tiled block are a well-formed list inside the
      block's range, holding every miniblock but the freed one. */
  lemma RemainingOk(ms: seq<Miniblock>, lo: nat, hi: nat, k: nat)
    requires Tiles(ms, lo, hi) && k < |ms|
    ensures var rs := Remaining(ms, k);
      && WellFormed(rs)
      && (rs != [] ==> lo <= rs[0].start && rs[|rs| - 1].End() <= hi)
      && AllMinis(rs) == ms[..k] + ms[k + 1..]
  {
    var rs := Remaining(ms, k);
    if k > 0 {
      TilesSplit(ms, lo, hi, k);
      RunOk(ms[..k], lo, ms[k].start);
    }
    if k < |ms| - 1 {
      TilesSplit(ms, lo, hi, k + 1);
      RunOk(ms[k + 1..], ms[k + 1].start, hi);
      TilesBounds(ms, lo, hi, k);
    }
    if k > 0 && k < |ms| - 1 {
      TilesBounds(ms, lo, hi, k);
      PairMinis(RunBlock(ms[..k]), RunBlock(ms[k + 1..]));
    } else if k > 0 {
      SingleMinis(RunBlock(ms[..k]));
      assert ms[k + 1..] == [];
    } else if k < |ms| - 1 {
      SingleMinis(RunBlock(ms[k + 1..]));
      assert ms[..k] == [];
    } else {
      assert ms[..k] == [] && ms[k + 1..] == [];
    }
  }

  /** A run that tiles `[lo, hi)` makes a tiled block spanning it. */
  lemma RunOk(run: seq<Miniblock>, lo: nat, hi: nat)
    requires Tiles(run, lo, hi)
    ensures BlockOk(RunBlock(run)) && RunBlock(run).start == lo && RunBlock(run).End() == hi
  {
    TilesSum(run, lo, hi);
  }

  lemma SingleMinis(b: Block)
    requires BlockOk(b)
    ensures WellFormed([b]) && AllMinis([b]) == b.minis + []
  {
    AllMinisSingle(b);
    AppendEmpty(b.minis);
  }

  lemma PairMinis(a: Block, b: Block)
    requires BlockOk(a) && BlockOk(b) && a.End() < b.start
    ensures WellFormed([a, b]) && AllMinis([a, b]) == a.minis + b.minis
  {
    PairWellFormed(a, b);
    assert [a, b][..1] == [a];
    AllMinisSingle(a);
  }

  lemma PairWellFormed(a: Block, b: Block)
    requires BlockOk(a) && BlockOk(b) && a.End() < b.start
    ensures WellFormed([a, b])
  {
  }

  /** A successful free keeps the arena invariant. */
  lemma FreePreservesValid(blocks: seq<Block>, arenaSize: nat, address: nat)
    requires Valid(blocks, arenaSize)
    requires Free(blocks, address).1 == Freed
    ensures Valid(Free(blocks, address).0, arenaSize)
  {
    var idx := FindContaining(blocks, address);
    var k := FindStart(blocks[idx].minis, address);
    assert idx < |blocks| && k < |blocks[idx].minis|
      && Free(blocks, address).0 == blocks[..idx] + Remaining(blocks[idx].minis, k) + blocks[idx + 1..] by {
      FreeShape(blocks, address);
    }
    RemainingValid(blocks, arenaSize, idx, k);
  }

  /** Block `idx` of a valid arena replaced by what is left of it once its
      miniblock `k` is freed: still valid. */
  lemma RemainingValid(blocks: seq<Block>, arenaSize: nat, idx: nat, k: nat)
    requires Valid(blocks, arenaSize) && idx < |blocks| && k < |blocks[idx].minis|
    ensures Valid(blocks[..idx] + Remaining(blocks[idx].minis, k) + blocks[idx + 1..], arenaSize)
  {
    var b := blocks[idx];
    RemainingOk(b.minis, b.start, b.End(), k);
    ValidReplace(blocks, arenaSize, idx, Remaining(b.minis, k));
  }

  /** A successful free removes exactly one miniblock of the arena, one that
      starts at `address`, and keeps the others in order. */
  lemma FreeRemovesMini(blocks: seq<Block>, address: nat)
    requires WellFormed(blocks)
    requires Free(blocks, address).1 == Freed
    ensures var ms := AllMinis(blocks);
      exists q :: 0 <= q < |ms| && ms[q].start == address
        && AllMinis(Free(blocks, address).0) == ms[..q] + ms[q + 1..]
  {
    FreeShape(blocks, address);
    var idx := FindContaining(blocks, address);
    var b := blocks[idx];
    var k := FindStart(b.minis, address);
    RemainingOk(b.minis, b.start, b.End(), k);
    var pre, post := blocks[..idx], blocks[idx + 1..];
    var xs, ys := AllMinis(pre), AllMinis(post);
    AllMinisConcat(pre + Remaining(b.minis, k), post);
    AllMinisConcat(pre, Remaining(b.minis, k));
    SpliceAround(blocks, idx);
    AllMinisSplice(pre, b, post);
    DropOne(xs, b.minis, k, ys);
  }

  /** Dropping element `k` of the middle part of a concatenation. */
  lemma DropOne(xs: seq<Miniblock>, ms: seq<Miniblock>, k: nat, ys: seq<Miniblock>)
    requires k < |ms|
    ensures var all := xs + ms + ys;
      var q := |xs| + k;
      && q < |all| && all[q] == ms[k]
      && xs + (ms[..k] + ms[k + 1..]) + ys == all[..q] + all[q + 1..]
  {
    var all := xs + ms + ys;
    var q := |xs| + k;
    assert all[..q] == xs + ms[..k];
    assert all[q + 1..] == ms[k + 1..] + ys;
  }

  /** `free_block` succeeds exactly when some miniblock starts at `address`:
      the inclusive upper bound of its block scan never matters, because
      blocks never touch. */
  lemma FreeOutcome(blocks: seq<Block>, address: nat)
    requires WellFormed(blocks)
    ensures Free(blocks, address).1 == Freed <==>
      exists i, k :: 0 <= i < |blocks| && 0 <= k < |blocks[i].minis| && blocks[i].minis[k].start == address
  {
    if exists i, k :: 0 <= i < |blocks| && 0 <= k < |blocks[i].minis| && blocks[i].minis[k].start == address {
      var i, k :| 0 <= i < |blocks| && 0 <= k < |blocks[i].minis| && blocks[i].minis[k].start == address;
      var b := blocks[i];
      TilesBounds(b.minis, b.start, b.End(), k);
      forall i' | 0 <= i' < i ensures !(blocks[i'].start <= address <= blocks[i'].End()) {
        assert blocks[i'].End() < blocks[i].start;
      }
      var idx := FindContaining(blocks, address);
      assert idx == i by {
        if idx < i {
          assert false;
        }
      }
      assert FindStart(b.minis, address) <= k;
    } else if Free(blocks, address).1 == Freed {
      FreeShape(blocks, address);
    }
  }

  /** Freeing the address one past a block's end is an invalid free. */
  lemma FreeAtBlockEnd(blocks: seq<Block>, address: nat, i: nat)
    requires WellFormed(blocks) && i < |blocks|
    requires address == blocks[i].End()
    ensures Free(blocks, address) == (blocks, InvalidFree)
  {
    FreeOutcome(blocks, address);
    forall i', k | 0 <= i' < |blocks| && 0 <= k < |blocks[i'].minis|
      ensures blocks[i'].minis[k].start != address
    {
      var b := blocks[i'];
      TilesBounds(b.minis, b.start, b.End(), k);
      if i' < i {
        assert b.End() < blocks[i].start;
        BlockNonEmpty(blocks[i]);
      } else if i' > i {
        assert blocks[i].End() < b.start;
      }
    }
  }

  /** Freeing the only miniblock of a block removes the block, freeing an
      inner one splits it in two, freeing the first or last of several keeps
      the number of blocks. */
  lemma FreeBlockCount(blocks: seq<Block>, address: nat)
    requires WellFormed(blocks)
    requires Free(blocks, address).1 == Freed
    ensures var idx := FindContaining(blocks, address);
      var ms := blocks[idx].minis;
      var k := FindStart(ms, address);
      && (|ms| == 1 ==> |Free(blocks, address).0| == |blocks| - 1)
      && (0 < k < |ms| - 1 ==> |Free(blocks, address).0| == |blocks| + 1)
      && (|ms| > 1 && (k == 0 || k == |ms| - 1) ==> |Free(blocks, address).0| == |blocks|)
  {
    FreeShape(blocks, address);
  }
}
