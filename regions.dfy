/** The region model of vma.h: an arena holds an ordered list of blocks, a
    block an ordered list of miniblocks, a miniblock a permission mask and a
    byte buffer.  Addresses and sizes are unbounded naturals here (`uint64_t`
    in the source); the one place where that matters is stated on the
    allocation method. */
module Regions {

  newtype byte = x: int | 0 <= x < 256

  /** Mask of a freshly allocated miniblock: read + write (`DEF_PERM`). */
  const DEF_PERM: byte := 6

  /** `miniblock_t`: the range `[start, start + size)`, its mask and its buffer. */
  datatype Miniblock = Miniblock(start: nat, size: nat, perm: byte, buffer: seq<byte>)
  {
    function End(): nat { start + size }
  }

  /** `block_t`: the range `[start, start + size)` and its miniblocks in order. */
  datatype Block = Block(start: nat, size: nat, minis: seq<Miniblock>)
  {
    function End(): nat { start + size }
  }

  /** A miniblock is never empty and its buffer is exactly as long as it is. */
  predicate MiniOk(m: Miniblock)
  {
    m.size > 0 && |m.buffer| == m.size
  }

  /** `ms` covers `[lo, hi)` exactly: in order, without gap or overlap. */
  predicate Tiles(ms: seq<Miniblock>, lo: nat, hi: nat)
  {
    && |ms| > 0
    && ms[0].start == lo
    && ms[|ms| - 1].End() == hi
    && (forall i :: 0 <= i < |ms| ==> MiniOk(ms[i]))
    && (forall i :: 0 <= i < |ms| - 1 ==> ms[i].End() == ms[i + 1].start)
  }

  predicate BlockOk(b: Block)
  {
    Tiles(b.minis, b.start, b.End())
  }

  /** Every block is tiled by its miniblocks; blocks are sorted, disjoint and
      never adjacent (touching blocks are always merged). */
  predicate WellFormed(blocks: seq<Block>)
  {
    && (forall i :: 0 <= i < |blocks| ==> BlockOk(blocks[i]))
    && (forall i, k :: 0 <= i < k < |blocks| ==> blocks[i].End() < blocks[k].start)
  }

  /** The arena invariant: well formed and inside `[0, arenaSize)`. */
  predicate Valid(blocks: seq<Block>, arenaSize: nat)
  {
    WellFormed(blocks) && (|blocks| > 0 ==> blocks[|blocks| - 1].End() <= arenaSize)
  }

  /** Total size of a run of miniblocks. */
  function SumSizes(ms: seq<Miniblock>): nat
  {
    if ms == [] then 0 else SumSizes(ms[..|ms| - 1]) + ms[|ms| - 1].size
  }

  /** The bytes of a run of miniblocks, buffer after buffer. */
  function Flat(ms: seq<Miniblock>): seq<byte>
  {
    if ms == [] then [] else Flat(ms[..|ms| - 1]) + ms[|ms| - 1].buffer
  }

  /** Every miniblock of the arena, block after block. */
  function AllMinis(blocks: seq<Block>): seq<Miniblock>
  {
    if blocks == [] then [] else AllMinis(blocks[..|blocks| - 1]) + blocks[|blocks| - 1].minis
  }

  lemma {:induction false} SumSizesConcat(a: seq<Miniblock>, b: seq<Miniblock>)
    ensures SumSizes(a + b) == SumSizes(a) + SumSizes(b)
    decreases |b|
  {
    if b == [] {
      assert a + b == a;
    } else {
      var c := a + b;
      assert c[..|c| - 1] == a + b[..|b| - 1];
      SumSizesConcat(a, b[..|b| - 1]);
    }
  }

  lemma {:induction false} FlatConcat(a: seq<Miniblock>, b: seq<Miniblock>)
    ensures Flat(a + b) == Flat(a) + Flat(b)
    decreases |b|
  {
    if b == [] {
      assert a + b == a;
    } else {
      var c := a + b;
      assert c[..|c| - 1] == a + b[..|b| - 1];
      FlatConcat(a, b[..|b| - 1]);
    }
  }

  lemma {:induction false} AllMinisConcat(a: seq<Block>, b: seq<Block>)
    ensures AllMinis(a + b) == AllMinis(a) + AllMinis(b)
    decreases |b|
  {
    if b == [] {
      assert a + b == a;
    } else {
      var c := a + b;
      assert c[..|c| - 1] == a + b[..|b| - 1];
      AllMinisConcat(a, b[..|b| - 1]);
    }
  }

  /** The buffers of a run laid end to end are as long as the run. */
  lemma {:induction false} FlatLength(ms: seq<Miniblock>)
    requires forall i :: 0 <= i < |ms| ==> |ms[i].buffer| == ms[i].size
    ensures |Flat(ms)| == SumSizes(ms)
    decreases |ms|
  {
    if ms != [] {
      FlatLength(ms[..|ms| - 1]);
    }
  }

  /** Byte `t` of miniblock `k` sits at offset `SumSizes(ms[..k]) + t` of the run. */
  lemma FlatAt(ms: seq<Miniblock>, k: nat, t: nat)
    requires forall i :: 0 <= i < |ms| ==> |ms[i].buffer| == ms[i].size
    requires k < |ms| && t < ms[k].size
    ensures SumSizes(ms[..k]) + t < |Flat(ms)|
    ensures Flat(ms)[SumSizes(ms[..k]) + t] == ms[k].buffer[t]
  {
    assert ms == ms[..k] + [ms[k]] + ms[k + 1..];
    FlatConcat(ms[..k] + [ms[k]], ms[k + 1..]);
    FlatConcat(ms[..k], [ms[k]]);
    assert Flat([ms[k]]) == ms[k].buffer by {
      assert [ms[k]][..0] == [];
    }
    FlatLength(ms[..k]);
    FlatLength(ms);
  }

  /** In a tiling, miniblock `k` starts `SumSizes(ms[..k])` bytes after `lo`. */
  lemma {:induction false} TilesStart(ms: seq<Miniblock>, lo: nat, hi: nat, k: nat)
    requires Tiles(ms, lo, hi)
    requires k < |ms|
    ensures ms[k].start == lo + SumSizes(ms[..k])
  {
    if k > 0 {
      TilesStart(ms, lo, hi, k - 1);
      assert ms[..k][..k - 1] == ms[..k - 1];
    }
  }

  /** A tiling of `[lo, hi)` has total size `hi - lo`. */
  lemma TilesSum(ms: seq<Miniblock>, lo: nat, hi: nat)
    requires Tiles(ms, lo, hi)
    ensures hi == lo + SumSizes(ms)
  {
    TilesStart(ms, lo, hi, |ms| - 1);
  }

  /** Miniblocks of a tiling come in increasing address order, inside `[lo, hi)`. */
  lemma {:induction false} TilesOrdered(ms: seq<Miniblock>, lo: nat, hi: nat, i: nat, j: nat)
    requires Tiles(ms, lo, hi)
    requires i < j < |ms|
    ensures ms[i].End() <= ms[j].start
    decreases j
  {
    if j > i + 1 {
      TilesOrdered(ms, lo, hi, i, j - 1);
    }
  }

  /** Every miniblock of a tiling of `[lo, hi)` lies inside it. */
  lemma TilesBounds(ms: seq<Miniblock>, lo: nat, hi: nat, i: nat)
    requires Tiles(ms, lo, hi)
    requires i < |ms|
    ensures lo <= ms[i].start && ms[i].End() <= hi
  {
    if i > 0 {
      TilesOrdered(ms, lo, hi, 0, i);
    }
    if i < |ms| - 1 {
      TilesOrdered(ms, lo, hi, i, |ms| - 1);
    }
  }

  /** Cutting a tiling before miniblock `i` gives two tilings. */
  lemma TilesSplit(ms: seq<Miniblock>, lo: nat, hi: nat, i: nat)
    requires Tiles(ms, lo, hi)
    requires 0 < i < |ms|
    ensures Tiles(ms[..i], lo, ms[i].start)
    ensures Tiles(ms[i..], ms[i].start, hi)
  {
  }

  /** Two tilings that meet make one. */
  lemma TilesJoin(a: seq<Miniblock>, b: seq<Miniblock>, lo: nat, mid: nat, hi: nat)
    requires Tiles(a, lo, mid) && Tiles(b, mid, hi)
    ensures Tiles(a + b, lo, hi)
  {
    var c := a + b;
    forall i | 0 <= i < |c| - 1 ensures c[i].End() == c[i + 1].start {
      if i < |a| - 1 {
      } else if i == |a| - 1 {
      } else {
        assert c[i] == b[i - |a|] && c[i + 1] == b[i + 1 - |a|];
      }
    }
  }

  /** Every miniblock of the arena lies inside `[lo, hi)` when every block does. */
  lemma {:induction false} AllMinisBounds(blocks: seq<Block>, lo: nat, hi: nat)
    requires forall b :: b in blocks ==> BlockOk(b) && lo <= b.start && b.End() <= hi
    ensures forall m :: m in AllMinis(blocks) ==> lo <= m.start && m.End() <= hi
    decreases |blocks|
  {
    if blocks != [] {
      var last := blocks[|blocks| - 1];
      AllMinisBounds(blocks[..|blocks| - 1], lo, hi);
      forall m | m in last.minis ensures lo <= m.start && m.End() <= hi {
        var i :| 0 <= i < |last.minis| && last.minis[i] == m;
        TilesBounds(last.minis, last.start, last.End(), i);
      }
    }
  }

  /** A tiled block is never empty. */
  lemma BlockNonEmpty(b: Block)
    requires BlockOk(b)
    ensures b.start < b.End()
  {
    TilesBounds(b.minis, b.start, b.End(), 0);
  }

  /** The miniblocks of a one-block list are that block's. */
  lemma AllMinisSingle(b: Block)
    ensures AllMinis([b]) == b.minis
  {
    assert [b][..0] == [];
  }

  /** The miniblocks of `pre + [b] + post`, part by part. */
  lemma AllMinisSplice(pre: seq<Block>, b: Block, post: seq<Block>)
    ensures AllMinis(pre + [b] + post) == AllMinis(pre) + b.minis + AllMinis(post)
  {
    AllMinisConcat(pre + [b], post);
    AllMinisConcat(pre, [b]);
    AllMinisSingle(b);
  }

  /** A prefix of a well-formed list is well formed. */
  lemma WellFormedPrefix(blocks: seq<Block>, n: nat)
    requires WellFormed(blocks) && n <= |blocks|
    ensures WellFormed(blocks[..n])
  {
  }

  /** A suffix of a well-formed list is well formed. */
  lemma WellFormedSuffix(blocks: seq<Block>, n: nat)
    requires WellFormed(blocks) && n <= |blocks|
    ensures WellFormed(blocks[n..])
  {
    var r := blocks[n..];
    forall i | 0 <= i < |r| ensures BlockOk(r[i]) {
      assert r[i] == blocks[n + i];
    }
    forall i, k | 0 <= i < k < |r| ensures r[i].End() < r[k].start {
      assert r[i] == blocks[n + i] && r[k] == blocks[n + k];
    }
  }

  /** A block fitted between two well-formed lists with a gap on each side
      gives a well-formed list. */
  lemma WellFormedSplice(pre: seq<Block>, b: Block, post: seq<Block>)
    requires WellFormed(pre) && WellFormed(post) && BlockOk(b)
    requires pre != [] ==> pre[|pre| - 1].End() < b.start
    requires post != [] ==> b.End() < post[0].start
    ensures WellFormed(pre + [b] + post)
  {
    var r := pre + [b] + post;
    forall i | 0 <= i < |r| ensures BlockOk(r[i]) {
      if i > |pre| {
        assert r[i] == post[i - |pre| - 1];
      }
    }
    forall i, k | 0 <= i < k < |r| ensures r[i].End() < r[k].start {
      var n := |pre|;
      if i < n {
        assert r[i].End() <= pre[n - 1].End() by {
          if i < n - 1 {
            assert pre[i].End() < pre[n - 1].start;
          }
        }
      }
      if k > n {
        assert post[0].start <= r[k].start by {
          if k > n + 1 {
            assert post[0].End() < post[k - n - 1].start;
          }
        }
      }
    }
  }

  /** Blocks `p` up to `s` of a valid arena replaced by one block that keeps
      clear of its new neighbours and of the arena end: still valid. */
  lemma ValidReplaceRange(blocks: seq<Block>, arenaSize: nat, p: nat, s: nat, b: Block)
    requires Valid(blocks, arenaSize) && p <= s <= |blocks| && BlockOk(b)
    requires p > 0 ==> blocks[p - 1].End() < b.start
    requires s < |blocks| ==> b.End() < blocks[s].start
    requires s == |blocks| ==> b.End() <= arenaSize
    ensures Valid(blocks[..p] + [b] + blocks[s..], arenaSize)
  {
    var pre, post := blocks[..p], blocks[s..];
    WellFormedPrefix(blocks, p);
    WellFormedSuffix(blocks, s);
    if pre != [] {
      assert pre[|pre| - 1] == blocks[p - 1];
    }
    if post != [] {
      assert post[0] == blocks[s];
      assert post[|post| - 1] == blocks[|blocks| - 1];
    }
    ValidSplice(pre, b, post, arenaSize);
  }

  /** The same splice inside an arena: valid when its last block ends in it. */
  lemma ValidSplice(pre: seq<Block>, b: Block, post: seq<Block>, arenaSize: nat)
    requires WellFormed(pre) && WellFormed(post) && BlockOk(b)
    requires pre != [] ==> pre[|pre| - 1].End() < b.start
    requires post != [] ==> b.End() < post[0].start
    requires post == [] ==> b.End() <= arenaSize
    requires post != [] ==> post[|post| - 1].End() <= arenaSize
    ensures Valid(pre + [b] + post, arenaSize)
  {
    WellFormedSplice(pre, b, post);
    var r := pre + [b] + post;
    if post == [] {
      assert r[|r| - 1] == b;
    } else {
      assert r[|r| - 1] == post[|post| - 1];
    }
  }

  /** The miniblocks of a list cut at `j`: those of the front, then the back. */
  lemma SplitAllMinis(blocks: seq<Block>, j: nat)
    requires j <= |blocks|
    ensures AllMinis(blocks) == AllMinis(blocks[..j]) + AllMinis(blocks[j..])
  {
    assert blocks == blocks[..j] + blocks[j..];
    AllMinisConcat(blocks[..j], blocks[j..]);
  }

  /** Two well-formed lists with a gap between them make one. */
  lemma WellFormedJoin(a: seq<Block>, b: seq<Block>)
    requires WellFormed(a) && WellFormed(b)
    requires a != [] && b != [] ==> a[|a| - 1].End() < b[0].start
    ensures WellFormed(a + b)
  {
    var r := a + b;
    forall i | 0 <= i < |r| ensures BlockOk(r[i]) {
      if i >= |a| {
        assert r[i] == b[i - |a|];
      }
    }
    forall i, k | 0 <= i < k < |r| ensures r[i].End() < r[k].start {
      if k < |a| {
        assert r[i] == a[i] && r[k] == a[k];
      } else if i >= |a| {
        assert r[i] == b[i - |a|] && r[k] == b[k - |a|];
      } else {
        assert r[i] == a[i] && r[k] == b[k - |a|];
        AcrossJoin(a, b, i, k - |a|);
      }
    }
  }

  /** A block of the first list ends before any block of the second starts. */
  lemma AcrossJoin(a: seq<Block>, b: seq<Block>, i: nat, j: nat)
    requires WellFormed(a) && WellFormed(b)
    requires i < |a| && j < |b| && a[|a| - 1].End() < b[0].start
    ensures a[i].End() < b[j].start
  {
    assert a[i].End() <= a[|a| - 1].End() by {
      if i < |a| - 1 {
        assert a[i].End() < a[|a| - 1].start;
      }
    }
    assert b[0].start <= b[j].start by {
      if j > 0 {
        assert b[0].End() < b[j].start;
      }
    }
  }

  /** Replacing block `idx` by a well-formed list that stays inside its range
      keeps the list well formed. */
  lemma WellFormedReplace(blocks: seq<Block>, idx: nat, rep: seq<Block>)
    requires WellFormed(blocks) && idx < |blocks| && WellFormed(rep)
    requires rep != [] ==> blocks[idx].start <= rep[0].start && rep[|rep| - 1].End() <= blocks[idx].End()
    ensures WellFormed(blocks[..idx] + rep + blocks[idx + 1..])
  {
    var pre, post := blocks[..idx], blocks[idx + 1..];
    WellFormedPrefix(blocks, idx);
    WellFormedSuffix(blocks, idx + 1);
    LastOfJoin(pre, rep);
    if pre != [] && rep != [] {
      assert blocks[idx - 1].End() < blocks[idx].start;
    }
    if post != [] {
      assert blocks[idx].End() < blocks[idx + 1].start;
      if idx > 0 {
        assert blocks[idx - 1].End() < blocks[idx + 1].start;
      }
    }
    WellFormedJoin(pre, rep);
    WellFormedJoin(pre + rep, post);
  }

  /** Replacing block `idx` by a well-formed list that stays inside its range
      keeps the arena invariant. */
  lemma ValidReplace(blocks: seq<Block>, arenaSize: nat, idx: nat, rep: seq<Block>)
    requires Valid(blocks, arenaSize) && idx < |blocks| && WellFormed(rep)
    requires rep != [] ==> blocks[idx].start <= rep[0].start && rep[|rep| - 1].End() <= blocks[idx].End()
    ensures Valid(blocks[..idx] + rep + blocks[idx + 1..], arenaSize)
  {
    WellFormedReplace(blocks, idx, rep);
    var pre, post := blocks[..idx], blocks[idx + 1..];
    LastOfJoin(pre, rep);
    LastOfJoin(pre + rep, post);
    if post == [] && rep == [] && idx > 0 {
      assert blocks[idx - 1].End() < blocks[idx].start;
    }
  }

  /** One block of a valid arena replaced by a well-formed block with the
      same range: still valid. */
  lemma ValidUpdate(blocks: seq<Block>, arenaSize: nat, i: nat, b: Block)
    requires Valid(blocks, arenaSize) && i < |blocks| && BlockOk(b)
    requires b.start == blocks[i].start && b.size == blocks[i].size
    ensures Valid(blocks[i := b], arenaSize)
  {
    var r := blocks[i := b];
    assert forall j :: 0 <= j < |r| ==> r[j].start == blocks[j].start && r[j].End() == blocks[j].End();
    forall j | 0 <= j < |r| ensures BlockOk(r[j]) {
      if j != i {
        assert r[j] == blocks[j];
      }
    }
    forall j, k | 0 <= j < k < |r| ensures r[j].End() < r[k].start {
      assert blocks[j].End() < blocks[k].start;
    }
  }

  /** The last element of a concatenation. */
  lemma LastOfJoin<T>(a: seq<T>, b: seq<T>)
    ensures a + b != [] ==> (a + b)[|a + b| - 1] == if b != [] then b[|b| - 1] else a[|a| - 1]
    ensures b == [] ==> a + b == a
  {
  }
}
