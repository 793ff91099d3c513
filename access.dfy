/** `read` and `write` (vma.c:384-530): permission-gated transfers over the
    run of miniblocks from the one holding the address to the end of its
    block. */
module Access {
  import opened DoublyLinkedList
  import opened Regions

  /** What `read` prints: the bytes, with or without the size warning, or
      one of its two error messages. */
  datatype ReadResult =
    | ReadOk(data: seq<byte>, warned: bool)
    | ReadBadAddress  // "Invalid address for read."
    | ReadBadPerm     // "Invalid permissions for read."

  /** What `write` reports. */
  datatype WriteStatus =
    | Written(warned: bool)
    | WriteBadAddress  // "Invalid address for write."
    | WriteBadPerm     // "Invalid permissions for write."

  function Min(a: nat, b: nat): nat
  {
    if a <= b then a else b
  }

  /** The first block whose half-open range holds `address`, or the end of
      the list. */
  function FindBlock(blocks: seq<Block>, address: nat): (i: nat)
    ensures i <= |blocks|
    ensures forall k :: 0 <= k < i ==> !(blocks[k].start <= address < blocks[k].End())
    ensures i < |blocks| ==> blocks[i].start <= address < blocks[i].End()
  {
    if blocks == [] then 0
    else if blocks[0].start <= address < blocks[0].End() then 0
    else 1 + FindBlock(blocks[1..], address)
  }

  /** The first miniblock whose half-open range holds `address`, or the end
      of the list. */
  function FindMini(ms: seq<Miniblock>, address: nat): (k: nat)
    ensures k <= |ms|
    ensures forall i :: 0 <= i < k ==> !(ms[i].start <= address < ms[i].End())
    ensures k < |ms| ==> ms[k].start <= address < ms[k].End()
  {
    if ms == [] then 0
    else if ms[0].start <= address < ms[0].End() then 0
    else 1 + FindMini(ms[1..], address)
  }

  /** The read bit of a mask, as `read` tests it. */
  predicate CanRead(perm: byte)
  {
    perm >= 4
  }

  /** The write bit of a mask, as `write` tests it. */
  predicate CanWrite(perm: byte)
  {
    perm == 2 || perm == 3 || perm == 6 || perm == 7
  }

  predicate AllReadable(ms: seq<Miniblock>)
  {
    forall i :: 0 <= i < |ms| ==> CanRead(ms[i].perm)
  }

  predicate AllWritable(ms: seq<Miniblock>)
  {
    forall i :: 0 <= i < |ms| ==> CanWrite(ms[i].perm)
  }

  /** The number of bytes a transfer moves: `size` when the run holds that
      many (counted with the whole first miniblock, as the source counts),
      otherwise the whole run; never past the end of the run. */
  function Count(checkSum: nat, off: nat, size: nat): nat
    requires off <= checkSum
  {
    if checkSum < size then checkSum - off else Min(size, checkSum - off)
  }

  /** `read`: locate block and miniblock, check the read bit from there to
      the end of the block, then hand out `Count` bytes from `address` on. */
  function Read(blocks: seq<Block>, address: nat, size: nat): (r: ReadResult)
    requires WellFormed(blocks)
  {
    var bi := FindBlock(blocks, address);
    if bi == |blocks| then ReadBadAddress
    else
      var ms := blocks[bi].minis;
      var mi := FindMini(ms, address);
      if mi == |ms| then ReadBadAddress
      else if !AllReadable(ms[mi..]) then ReadBadPerm
      else
        var tail := ms[mi..];
        var off := address - ms[mi].start;
        TailSize(blocks[bi], mi);
        var checkSum := SumSizes(tail);
        ReadOk(Flat(tail)[off .. off + Count(checkSum, off, size)], checkSum < size)
  }

  /** The run from a miniblock of a tiled block to its end tiles the rest of
      the block, and its bytes are as many as its size. */
  lemma TailFacts(b: Block, mi: nat)
    requires BlockOk(b) && mi < |b.minis|
    ensures Tiles(b.minis[mi..], b.minis[mi].start, b.End())
    ensures |Flat(b.minis[mi..])| == SumSizes(b.minis[mi..]) == b.End() - b.minis[mi].start
    ensures b.minis[mi].size <= SumSizes(b.minis[mi..])
  {
    var ms := b.minis;
    if mi > 0 {
      TilesSplit(ms, b.start, b.End(), mi);
    }
    var tail := ms[mi..];
    TilesSum(tail, ms[mi].start, b.End());
    FlatLength(tail);
    TilesBounds(tail, ms[mi].start, b.End(), 0);
  }

  /** The sizes part of `TailFacts`, for callers that need no more. */
  lemma TailSize(b: Block, mi: nat)
    requires BlockOk(b) && mi < |b.minis|
    ensures |Flat(b.minis[mi..])| == SumSizes(b.minis[mi..]) == b.End() - b.minis[mi].start
    ensures b.minis[mi].size <= SumSizes(b.minis[mi..])
  {
    TailFacts(b, mi);
  }

  /** The buffers of `ms` with `d` stored from offset `off` of the first one
      on, spilling into the following ones; nothing else changes. */
  function Store(ms: seq<Miniblock>, off: nat, d: seq<byte>): (r: seq<Miniblock>)
    requires ms != [] ==> off <= |ms[0].buffer|
    ensures |r| == |ms|
    decreases |ms|
  {
    if ms == [] then []
    else
      var m := ms[0];
      var k := Min(|d|, |m.buffer| - off);
      [m.(buffer := m.buffer[..off] + d[..k] + m.buffer[off + k..])] + Store(ms[1..], 0, d[k..])
  }

  /** `write` with the transfer clamped to `Count` bytes: locate block and
      miniblock, check the write bit from there to the end of the block,
      then store the first `Count` bytes of `data` from `address` on. */
  function Write(blocks: seq<Block>, address: nat, size: nat, data: seq<byte>): (r: (seq<Block>, WriteStatus))
    requires WellFormed(blocks)
    requires |data| >= size
    ensures !r.1.Written? ==> r.0 == blocks
    ensures |r.0| == |blocks|
  {
    var bi := FindBlock(blocks, address);
    if bi == |blocks| then (blocks, WriteBadAddress)
    else
      var ms := blocks[bi].minis;
      var mi := FindMini(ms, address);
      if mi == |ms| then (blocks, WriteBadAddress)
      else if !AllWritable(ms[mi..]) then (blocks, WriteBadPerm)
      else (blocks[bi := StoreRun(blocks[bi], mi, address, size, data)], Written(SumSizes(ms[mi..]) < size))
  }

  /** Block `b` after the transfer of `write` from `address`, held by its
      miniblock `mi`: `Count` bytes of `data` stored from there on. */
  function StoreRun(b: Block, mi: nat, address: nat, size: nat, data: seq<byte>): Block
    requires |data| >= size && b.start <= address < b.End()
    requires mi < |b.minis| && b.minis[mi].start <= address < b.minis[mi].End()
    requires |b.minis[mi].buffer| == b.minis[mi].size
  {
    var ms := b.minis;
    var n := Min(size, b.End() - address);
    b.(minis := ms[..mi] + Store(ms[mi..], address - ms[mi].start, data[..n]))
  }

  /** The byte stored at address `x`: the one at its offset in the
      miniblock that holds it, if any block does. */
  function ByteAt(blocks: seq<Block>, x: nat): Option<byte>
  {
    var bi := FindBlock(blocks, x);
    if bi == |blocks| then None
    else
      var ms := blocks[bi].minis;
      var k := FindMini(ms, x);
      if k == |ms| || x - ms[k].start >= |ms[k].buffer| then None
      else Some(ms[k].buffer[x - ms[k].start])
  }

  /** Both branches of `Count` move as many bytes as asked, up to the end
      of the run. */
  lemma CountIsMin(checkSum: nat, off: nat, size: nat)
    requires off <= checkSum
    ensures Count(checkSum, off, size) == Min(size, checkSum - off)
  {
  }

  lemma FlatCons(ms: seq<Miniblock>)
    requires ms != []
    ensures Flat(ms) == ms[0].buffer + Flat(ms[1..])
  {
    assert ms == [ms[0]] + ms[1..];
    FlatConcat([ms[0]], ms[1..]);
    assert [ms[0]][..0] == [];
  }

  /** Byte `x - lo` of a tiling's contents is byte `x` of the memory: the
      byte at its offset in the first miniblock that holds `x`. */
  lemma {:induction false} FlatByte(ms: seq<Miniblock>, lo: nat, hi: nat, x: nat) returns (k: nat)
    requires Tiles(ms, lo, hi) && lo <= x < hi
    ensures k == FindMini(ms, x)
    ensures k < |ms| && x - ms[k].start < |ms[k].buffer|
    ensures x - lo < |Flat(ms)|
    ensures Flat(ms)[x - lo] == ms[k].buffer[x - ms[k].start]
    decreases |ms|, 1
  {
    if x < ms[0].End() {
      k := FlatByteHead(ms, lo, x);
    } else {
      if |ms| == 1 {
        assert false;
      }
      var rest := ms[1..];
      assert Tiles(rest, rest[0].start, hi) && MiniOk(ms[0]) && ms[0].End() == rest[0].start by {
        TilesSplit(ms, lo, hi, 1);
      }
      k := FlatByteLater(ms, rest, lo, hi, x);
    }
  }

  /** `FlatByte` past the first miniblock: the rest of the tiling holds `x`. */
  lemma {:induction false} FlatByteLater(ms: seq<Miniblock>, rest: seq<Miniblock>, lo: nat, hi: nat, x: nat)
      returns (k: nat)
    requires |ms| > 1 && rest == ms[1..] && MiniOk(ms[0]) && ms[0].start == lo
    requires Tiles(rest, rest[0].start, hi) && ms[0].End() == rest[0].start <= x < hi
    ensures k == FindMini(ms, x)
    ensures k < |ms| && x - ms[k].start < |ms[k].buffer|
    ensures x - lo < |Flat(ms)|
    ensures Flat(ms)[x - lo] == ms[k].buffer[x - ms[k].start]
    decreases |ms|, 0
  {
    var j := FlatByte(rest, rest[0].start, hi, x);
    k := FlatByteStep(ms, rest, lo, x, j);
  }

  /** The base case of `FlatByte`: `x` lies in the first miniblock. */
  lemma FlatByteHead(ms: seq<Miniblock>, lo: nat, x: nat) returns (k: nat)
    requires ms != [] && MiniOk(ms[0]) && ms[0].start == lo
    requires lo <= x < ms[0].End()
    ensures k == FindMini(ms, x) && k == 0 && k < |ms|
    ensures x - ms[k].start < |ms[k].buffer|
    ensures x - lo < |Flat(ms)|
    ensures Flat(ms)[x - lo] == ms[k].buffer[x - ms[k].start]
  {
    FlatCons(ms);
    k := 0;
    var o := x - lo;
    assert o == x - ms[k].start && o < |ms[0].buffer|;
    AppendIndexLeft(ms[0].buffer, Flat(ms[1..]), o);
  }

  /** The inductive step of `FlatByte`: a byte past the first miniblock is
      found in the rest, shifted by the first miniblock's length. */
  lemma FlatByteStep(ms: seq<Miniblock>, rest: seq<Miniblock>, lo: nat, x: nat, j: nat)
      returns (k: nat)
    requires |ms| > 1 && rest == ms[1..] && MiniOk(ms[0]) && ms[0].start == lo
    requires ms[0].End() == rest[0].start && ms[0].End() <= x
    requires j == FindMini(rest, x) && j < |rest|
    requires x - rest[0].start < |Flat(rest)|
    requires x - rest[j].start < |rest[j].buffer|
    requires Flat(rest)[x - rest[0].start] == rest[j].buffer[x - rest[j].start]
    ensures k == FindMini(ms, x) && k == j + 1 && k < |ms|
    ensures x - ms[k].start < |ms[k].buffer|
    ensures x - lo < |Flat(ms)|
    ensures Flat(ms)[x - lo] == ms[k].buffer[x - ms[k].start]
  {
    FlatCons(ms);
    k := j + 1;
    assert ms[k] == rest[j];
    var y := x - rest[0].start;
    var o := x - lo;
    assert o == |ms[0].buffer| + y;
    AppendIndexRight(ms[0].buffer, Flat(rest), y);
  }

  lemma AppendIndexLeft<T>(a: seq<T>, b: seq<T>, i: nat)
    requires i < |a|
    ensures (a + b)[i] == a[i]
  {
  }

  lemma AppendIndexRight<T>(a: seq<T>, b: seq<T>, i: nat)
    requires i < |b|
    ensures (a + b)[|a| + i] == b[i]
  {
  }

  /** A block holding `x` is the one the scan for `x` stops at. */
  lemma FindBlockAt(blocks: seq<Block>, i: nat, x: nat)
    requires WellFormed(blocks) && i < |blocks|
    requires blocks[i].start <= x < blocks[i].End()
    ensures FindBlock(blocks, x) == i
  {
    var f := FindBlock(blocks, x);
    if f < i {
      assert false;
    }
  }

  /** The byte at an address inside block `i` is the byte at the same
      offset of the block's contents. */
  lemma ByteAtIn(blocks: seq<Block>, i: nat, x: nat)
    requires WellFormed(blocks) && i < |blocks|
    requires blocks[i].start <= x < blocks[i].End()
    ensures x - blocks[i].start < |Flat(blocks[i].minis)|
    ensures ByteAt(blocks, x) == Some(Flat(blocks[i].minis)[x - blocks[i].start])
  {
    FindBlockAt(blocks, i, x);
    var _ := FlatByte(blocks[i].minis, blocks[i].start, blocks[i].End(), x);
  }

  /** No byte is stored outside every block. */
  lemma ByteAtOutside(blocks: seq<Block>, x: nat)
    requires forall i :: 0 <= i < |blocks| ==> !(blocks[i].start <= x < blocks[i].End())
    ensures ByteAt(blocks, x) == None
  {
  }

  /** Storing `d` from offset `off` overwrites exactly those bytes of the
      run's contents. */
  lemma {:induction false} StoreFlat(ms: seq<Miniblock>, off: nat, d: seq<byte>)
    requires ms != [] ==> off <= |ms[0].buffer|
    requires off + |d| <= |Flat(ms)|
    ensures Flat(Store(ms, off, d)) == Flat(ms)[..off] + d + Flat(ms)[off + |d|..]
    decreases |ms|
  {
    if ms == [] {
    } else {
      var m := ms[0];
      var b, f := m.buffer, Flat(ms[1..]);
      FlatCons(ms);
      var k := Min(|d|, |b| - off);
      var r := Store(ms, off, d);
      assert r[1..] == Store(ms[1..], 0, d[k..]);
      FlatCons(r);
      StoreFlat(ms[1..], 0, d[k..]);
      SpillSplice(b, f, off, d, k);
    }
  }

  /** Two blocks with the same ranges, miniblock ranges and masks; only
      buffer contents may differ. */
  predicate SameShape(a: Block, c: Block)
  {
    && a.start == c.start && a.size == c.size && |a.minis| == |c.minis|
    && forall k :: 0 <= k < |a.minis| ==>
      && a.minis[k].start == c.minis[k].start && a.minis[k].size == c.minis[k].size
      && a.minis[k].perm == c.minis[k].perm && |a.minis[k].buffer| == |c.minis[k].buffer|
  }

  lemma SameShapeOk(a: Block, c: Block)
    requires BlockOk(a) && SameShape(a, c)
    ensures BlockOk(c)
  {
  }

  /** A write succeeds only at an address held by a block and one of its
      miniblocks, with the write bit set from there to the block end, and
      then stores into that block only. */
  lemma WriteFound(blocks: seq<Block>, address: nat, size: nat, data: seq<byte>) returns (bi: nat, mi: nat)
    requires WellFormed(blocks) && |data| >= size
    requires Write(blocks, address, size, data).1.Written?
    ensures bi == FindBlock(blocks, address) && bi < |blocks|
    ensures mi == FindMini(blocks[bi].minis, address) && mi < |blocks[bi].minis|
    ensures AllWritable(blocks[bi].minis[mi..])
    ensures Write(blocks, address, size, data)
      == (blocks[bi := StoreRun(blocks[bi], mi, address, size, data)],
          Written(SumSizes(blocks[bi].minis[mi..]) < size))
  {
    bi := FindBlock(blocks, address);
    mi := FindMini(blocks[bi].minis, address);
  }

  /** Once the block and miniblock holding `address` are found and the run
      from there is readable, `read` hands out the bytes from `address` on,
      as many as asked but not past the block end. */
  lemma ReadAt(blocks: seq<Block>, address: nat, size: nat, bi: nat, mi: nat, off: nat, n: nat)
    requires WellFormed(blocks)
    requires bi == FindBlock(blocks, address) && bi < |blocks|
    requires mi == FindMini(blocks[bi].minis, address) && mi < |blocks[bi].minis|
    requires AllReadable(blocks[bi].minis[mi..])
    requires off == address - blocks[bi].minis[mi].start
    requires n == Min(size, blocks[bi].End() - address)
    ensures off + n <= |Flat(blocks[bi].minis[mi..])|
    ensures Read(blocks, address, size).ReadOk?
    ensures Read(blocks, address, size).data == Flat(blocks[bi].minis[mi..])[off .. off + n]
    ensures |Read(blocks, address, size).data| == n
    ensures Read(blocks, address, size).warned == (SumSizes(blocks[bi].minis[mi..]) < size)
    ensures Read(blocks, address, size)
      == ReadOk(Flat(blocks[bi].minis[mi..])[off .. off + n], SumSizes(blocks[bi].minis[mi..]) < size)
  {
    TailSize(blocks[bi], mi);
    var checkSum := SumSizes(blocks[bi].minis[mi..]);
    CountIsMin(checkSum, off, size);
    assert checkSum - off == blocks[bi].End() - address;
    ReadUnfold(blocks, address, size, bi, mi, off, n);
  }

  /** `ReadAt` with the bytes and the warning given by name. */
  lemma ReadIs(blocks: seq<Block>, address: nat, size: nat, bi: nat, mi: nat, off: nat, n: nat,
               out: seq<byte>, warned: bool)
    requires WellFormed(blocks)
    requires bi == FindBlock(blocks, address) && bi < |blocks|
    requires mi == FindMini(blocks[bi].minis, address) && mi < |blocks[bi].minis|
    requires AllReadable(blocks[bi].minis[mi..])
    requires off == address - blocks[bi].minis[mi].start
    requires n == Min(size, blocks[bi].End() - address)
    requires off + n <= |Flat(blocks[bi].minis[mi..])|
    requires out == Flat(blocks[bi].minis[mi..])[off .. off + n]
    requires warned == (SumSizes(blocks[bi].minis[mi..]) < size)
    ensures Read(blocks, address, size) == ReadOk(out, warned)
  {
    ReadAt(blocks, address, size, bi, mi, off, n);
  }

  /** The three ways `Read` fails, one per check, in the order it makes them. */
  lemma ReadFailures(blocks: seq<Block>, address: nat, size: nat)
    requires WellFormed(blocks)
    ensures var bi := FindBlock(blocks, address);
      && (bi == |blocks| ==> Read(blocks, address, size) == ReadBadAddress)
      && (bi < |blocks| ==>
            var ms := blocks[bi].minis;
            var mi := FindMini(ms, address);
            && (mi == |ms| ==> Read(blocks, address, size) == ReadBadAddress)
            && (mi < |ms| && !AllReadable(ms[mi..]) ==> Read(blocks, address, size) == ReadBadPerm))
  {
  }

  /** `Read` at a located, readable run, with its count already worked out. */
  lemma ReadUnfold(blocks: seq<Block>, address: nat, size: nat, bi: nat, mi: nat, off: nat, c: nat)
    requires WellFormed(blocks)
    requires bi == FindBlock(blocks, address) && bi < |blocks|
    requires mi == FindMini(blocks[bi].minis, address) && mi < |blocks[bi].minis|
    requires AllReadable(blocks[bi].minis[mi..])
    requires off == address - blocks[bi].minis[mi].start
    requires off <= SumSizes(blocks[bi].minis[mi..]) == |Flat(blocks[bi].minis[mi..])|
    requires c == Count(SumSizes(blocks[bi].minis[mi..]), off, size)
    ensures off + c <= |Flat(blocks[bi].minis[mi..])|
    ensures Read(blocks, address, size).ReadOk?
    ensures Read(blocks, address, size).data == Flat(blocks[bi].minis[mi..])[off .. off + c]
    ensures Read(blocks, address, size).warned == (SumSizes(blocks[bi].minis[mi..]) < size)
  {
    ReadUnfoldData(blocks, address, size, bi, mi, off, c);
  }

  /** The bytes half of `ReadUnfold`. */
  lemma ReadUnfoldData(blocks: seq<Block>, address: nat, size: nat, bi: nat, mi: nat, off: nat, c: nat)
    requires WellFormed(blocks)
    requires bi == FindBlock(blocks, address) && bi < |blocks|
    requires mi == FindMini(blocks[bi].minis, address) && mi < |blocks[bi].minis|
    requires AllReadable(blocks[bi].minis[mi..])
    requires off == address - blocks[bi].minis[mi].start
    requires off <= SumSizes(blocks[bi].minis[mi..]) == |Flat(blocks[bi].minis[mi..])|
    requires c == Count(SumSizes(blocks[bi].minis[mi..]), off, size)
    ensures off + c <= |Flat(blocks[bi].minis[mi..])|
    ensures Read(blocks, address, size).ReadOk?
    ensures Read(blocks, address, size).data == Flat(blocks[bi].minis[mi..])[off .. off + c]
  {
  }

  /** A read succeeds only at an address held by a block and one of its
      miniblocks, with the read bit set from there to the block end. */
  lemma ReadFound(blocks: seq<Block>, address: nat, size: nat) returns (bi: nat, mi: nat)
    requires WellFormed(blocks)
    requires Read(blocks, address, size).ReadOk?
    ensures bi == FindBlock(blocks, address) && bi < |blocks|
    ensures mi == FindMini(blocks[bi].minis, address) && mi < |blocks[bi].minis|
    ensures AllReadable(blocks[bi].minis[mi..])
  {
    bi := FindBlock(blocks, address);
    mi := FindMini(blocks[bi].minis, address);
  }

  /** The transfer keeps the block's range, its miniblocks' ranges and
      masks: only buffer contents change. */
  lemma StoreRunShape(b: Block, mi: nat, address: nat, size: nat, data: seq<byte>)
    requires BlockOk(b) && |data| >= size
    requires mi < |b.minis| && b.minis[mi].start <= address < b.minis[mi].End()
    requires b.start <= address < b.End()
    ensures SameShape(b, StoreRun(b, mi, address, size, data))
    ensures BlockOk(StoreRun(b, mi, address, size, data))
  {
    var ms := b.minis;
    var off := address - ms[mi].start;
    var n := Min(size, b.End() - address);
    assert StoreRun(b, mi, address, size, data) == b.(minis := ms[..mi] + Store(ms[mi..], off, data[..n]));
    StoreKeepsShape(b, mi, off, data[..n]);
  }

  /** Over the run from miniblock `mi` to the end of the block, the transfer
      overwrites the `n` bytes from `address` on with the first `n` bytes of
      `data`, where `n` is `size` capped at the end of the block; the
      miniblocks before `mi` are untouched. */
  lemma StoreRunTail(b: Block, mi: nat, address: nat, size: nat, data: seq<byte>) returns (off: nat, n: nat)
    requires BlockOk(b) && |data| >= size
    requires mi < |b.minis| && b.minis[mi].start <= address < b.minis[mi].End()
    requires b.start <= address < b.End()
    ensures off == address - b.minis[mi].start && n == Min(size, b.End() - address)
    ensures |StoreRun(b, mi, address, size, data).minis| == |b.minis|
    ensures StoreRun(b, mi, address, size, data).minis[..mi] == b.minis[..mi]
    ensures off + n <= |Flat(b.minis[mi..])|
    ensures Flat(StoreRun(b, mi, address, size, data).minis[mi..])
      == Flat(b.minis[mi..])[..off] + data[..n] + Flat(b.minis[mi..])[off + n..]
  {
    var ms := b.minis;
    off := address - ms[mi].start;
    n := Min(size, b.End() - address);
    var tail := ms[mi..];
    var d := data[..n];
    var st := Store(tail, off, d);
    assert StoreRun(b, mi, address, size, data).minis == ms[..mi] + st;
    assert |ms[..mi] + st| == |ms| && (ms[..mi] + st)[..mi] == ms[..mi] && (ms[..mi] + st)[mi..] == st by {
      ConcatParts(ms[..mi], st);
    }
    assert off + |d| <= |Flat(tail)| && off <= |tail[0].buffer| by {
      TailSize(b, mi);
      assert tail[0] == ms[mi] && MiniOk(ms[mi]);
    }
    assert Flat(st) == Flat(tail)[..off] + d + Flat(tail)[off + |d|..] by {
      StoreFlat(tail, off, d);
    }
  }

  /** `Store` changes buffer contents only: every miniblock keeps its
      start, size, mask and buffer length. */
  lemma {:induction false} StoreShape(ms: seq<Miniblock>, off: nat, d: seq<byte>)
    requires ms != [] ==> off <= |ms[0].buffer|
    ensures forall i :: 0 <= i < |ms| ==>
      var r := Store(ms, off, d)[i];
      && r.start == ms[i].start && r.size == ms[i].size && r.perm == ms[i].perm
      && |r.buffer| == |ms[i].buffer|
    decreases |ms|
  {
    if ms != [] {
      var k := Min(|d|, |ms[0].buffer| - off);
      StoreShape(ms[1..], 0, d[k..]);
    }
  }

  lemma StoreKeepsShape(b: Block, mi: nat, off: nat, d: seq<byte>)
    requires BlockOk(b) && mi < |b.minis|
    requires off < b.minis[mi].size
    ensures SameShape(b, b.(minis := b.minis[..mi] + Store(b.minis[mi..], off, d)))
    ensures BlockOk(b.(minis := b.minis[..mi] + Store(b.minis[mi..], off, d)))
  {
    var ms := b.minis;
    var tail := ms[mi..];
    var st := Store(tail, off, d);
    var c := b.(minis := ms[..mi] + st);
    StoreShape(tail, off, d);
    forall k | 0 <= k < |ms| ensures
      && c.minis[k].start == ms[k].start && c.minis[k].size == ms[k].size
      && c.minis[k].perm == ms[k].perm && |c.minis[k].buffer| == |ms[k].buffer|
    {
      if k >= mi {
        assert c.minis[k] == st[k - mi];
        assert tail[k - mi] == ms[k];
      }
    }
    SameShapeOk(b, c);
  }

  /** The contents of a tiled block, cut before miniblock `mi`: the front
      part is as long as the distance from the block start to `mi`'s start. */
  lemma SplitFlat(b: Block, mi: nat)
    requires BlockOk(b) && mi < |b.minis|
    ensures Flat(b.minis) == Flat(b.minis[..mi]) + Flat(b.minis[mi..])
    ensures |Flat(b.minis[..mi])| == b.minis[mi].start - b.start
  {
    var ms := b.minis;
    assert ms == ms[..mi] + ms[mi..];
    FlatConcat(ms[..mi], ms[mi..]);
    TilesStart(ms, b.start, b.End(), mi);
    FlatLength(ms[..mi]);
  }

  /** The first miniblock holding `x` depends only on the miniblocks' ranges. */
  lemma FindMiniSame(ms: seq<Miniblock>, ns: seq<Miniblock>, x: nat)
    requires |ms| == |ns|
    requires forall i :: 0 <= i < |ms| ==> ns[i].start == ms[i].start && ns[i].size == ms[i].size
    ensures FindMini(ns, x) == FindMini(ms, x)
  {
  }

  /** Replacing a block by one with the same range leaves the scan for any
      address where it was. */
  lemma FindBlockSame(blocks: seq<Block>, bi: nat, c: Block, x: nat)
    requires bi < |blocks| && c.start == blocks[bi].start && c.size == blocks[bi].size
    ensures FindBlock(blocks[bi := c], x) == FindBlock(blocks, x)
  {
    var after := blocks[bi := c];
    assert forall i :: 0 <= i < |blocks| ==> after[i].start == blocks[i].start && after[i].End() == blocks[i].End();
  }

  /** Two block lists that differ in buffer contents only. */
  predicate SameLayout(xs: seq<Block>, ys: seq<Block>)
  {
    |xs| == |ys| && forall i :: 0 <= i < |xs| ==> SameShape(xs[i], ys[i])
  }

  /** Changing buffer contents only keeps the blocks well formed. */
  lemma SameLayoutWellFormed(xs: seq<Block>, ys: seq<Block>)
    requires WellFormed(xs) && SameLayout(xs, ys)
    ensures WellFormed(ys)
  {
    forall i | 0 <= i < |ys| ensures BlockOk(ys[i]) {
      SameShapeOk(xs[i], ys[i]);
    }
    forall i, k | 0 <= i < k < |ys| ensures ys[i].End() < ys[k].start {
      assert xs[i].End() < xs[k].start;
    }
  }

  /** Changing buffer contents only keeps the arena valid. */
  lemma SameLayoutValid(xs: seq<Block>, ys: seq<Block>, arenaSize: nat)
    requires Valid(xs, arenaSize) && SameLayout(xs, ys)
    ensures Valid(ys, arenaSize)
  {
    SameLayoutWellFormed(xs, ys);
    if |ys| > 0 {
      assert SameShape(xs[|xs| - 1], ys[|ys| - 1]);
    }
  }

  /** `write` changes buffer contents only: blocks, miniblocks, their ranges
      and masks stay as they were. */
  lemma WriteLayout(blocks: seq<Block>, address: nat, size: nat, data: seq<byte>)
    requires WellFormed(blocks) && |data| >= size
    ensures SameLayout(blocks, Write(blocks, address, size, data).0)
  {
    var after := Write(blocks, address, size, data).0;
    if Write(blocks, address, size, data).1.Written? {
      var bi, mi := WriteFound(blocks, address, size, data);
      StoreRunShape(blocks[bi], mi, address, size, data);
      forall i | 0 <= i < |blocks| ensures SameShape(blocks[i], after[i]) {
        if i != bi {
          assert after[i] == blocks[i];
        }
      }
    } else {
      forall i | 0 <= i < |blocks| ensures SameShape(blocks[i], after[i]) {
      }
    }
  }

  /** `write` keeps the arena's invariant. */
  lemma WritePreservesValid(blocks: seq<Block>, arenaSize: nat, address: nat, size: nat, data: seq<byte>)
    requires Valid(blocks, arenaSize) && |data| >= size
    ensures Valid(Write(blocks, address, size, data).0, arenaSize)
  {
    WriteLayout(blocks, address, size, data);
    SameLayoutValid(blocks, Write(blocks, address, size, data).0, arenaSize);
  }

  /** Byte `x` of a tiled block, seen from miniblock `mi`: before `mi` it is
      a byte of the miniblocks in front, from `mi` on a byte of the run from
      `mi`, at the offset from that miniblock's start. */
  lemma BlockByte(b: Block, mi: nat, x: nat)
    requires BlockOk(b) && mi < |b.minis| && b.start <= x < b.End()
    ensures x - b.start < |Flat(b.minis)|
    ensures x < b.minis[mi].start ==>
      x - b.start < |Flat(b.minis[..mi])| && Flat(b.minis)[x - b.start] == Flat(b.minis[..mi])[x - b.start]
    ensures b.minis[mi].start <= x ==>
      x - b.minis[mi].start < |Flat(b.minis[mi..])|
      && Flat(b.minis)[x - b.start] == Flat(b.minis[mi..])[x - b.minis[mi].start]
  {
    SplitFlat(b, mi);
    TailFacts(b, mi);
    TilesBounds(b.minis, b.start, b.End(), mi);
  }

  /** What a successful `read` hands out: as many bytes as asked but not
      past the end of the block holding `address`, each the byte stored at
      its address; the warning is given exactly when the run from the
      holding miniblock to the block end is shorter than asked. */
  lemma ReadBytes(blocks: seq<Block>, address: nat, size: nat) returns (bi: nat, mi: nat)
    requires WellFormed(blocks)
    requires Read(blocks, address, size).ReadOk?
    ensures bi < |blocks| && blocks[bi].start <= address < blocks[bi].End()
    ensures mi < |blocks[bi].minis| && blocks[bi].minis[mi].start <= address < blocks[bi].minis[mi].End()
    ensures |Read(blocks, address, size).data| == Min(size, blocks[bi].End() - address)
    ensures Read(blocks, address, size).warned == (blocks[bi].End() - blocks[bi].minis[mi].start < size)
    ensures forall x :: address <= x < address + |Read(blocks, address, size).data| ==>
      ByteAt(blocks, x) == Some(Read(blocks, address, size).data[x - address])
  {
    bi, mi := ReadFound(blocks, address, size);
    var off := address - blocks[bi].minis[mi].start;
    var n := Min(size, blocks[bi].End() - address);
    ReadAt(blocks, address, size, bi, mi, off, n);
    TailSize(blocks[bi], mi);
    var d := Read(blocks, address, size).data;
    forall x | address <= x < address + |d| ensures ByteAt(blocks, x) == Some(d[x - address]) {
      SliceByte(blocks, bi, mi, address, off, n, d, x);
    }
  }

  /** A stretch of the run from miniblock `mi` of block `bi`, taken from
      `address` on, holds the bytes stored at its addresses. */
  lemma SliceByte(blocks: seq<Block>, bi: nat, mi: nat, address: nat, off: nat, n: nat, d: seq<byte>, x: nat)
    requires WellFormed(blocks) && bi < |blocks| && mi < |blocks[bi].minis|
    requires off == address - blocks[bi].minis[mi].start && n == |d|
    requires blocks[bi].minis[mi].start <= address && address + n <= blocks[bi].End()
    requires off + n <= |Flat(blocks[bi].minis[mi..])|
    requires d == Flat(blocks[bi].minis[mi..])[off .. off + n]
    requires address <= x < address + n
    ensures ByteAt(blocks, x) == Some(d[x - address])
  {
    var o := x - blocks[bi].minis[mi].start;
    assert d[x - address] == Flat(blocks[bi].minis[mi..])[o];
    TailByte(blocks, bi, mi, x, o, d[x - address]);
  }

  /** The byte at an address from miniblock `mi` of block `bi` on is the
      byte at the same offset of the run from `mi`. */
  lemma TailByte(blocks: seq<Block>, bi: nat, mi: nat, x: nat, o: nat, v: byte)
    requires WellFormed(blocks) && bi < |blocks| && mi < |blocks[bi].minis|
    requires blocks[bi].minis[mi].start <= x < blocks[bi].End()
    requires o == x - blocks[bi].minis[mi].start
    requires o < |Flat(blocks[bi].minis[mi..])| && v == Flat(blocks[bi].minis[mi..])[o]
    ensures ByteAt(blocks, x) == Some(v)
  {
    var b := blocks[bi];
    TilesBounds(b.minis, b.start, b.End(), mi);
    BlockByte(b, mi, x);
    ByteAtIn(blocks, bi, x);
  }

  /** The block list after a successful write, with what the lookups of a
      later access at the same address find there. */
  lemma WriteKeepsLookup(blocks: seq<Block>, address: nat, size: nat, data: seq<byte>, bi: nat, mi: nat)
    requires WellFormed(blocks) && |data| >= size
    requires bi == FindBlock(blocks, address) && bi < |blocks|
    requires mi == FindMini(blocks[bi].minis, address) && mi < |blocks[bi].minis|
    ensures blocks[bi].start <= address < blocks[bi].End()
    ensures blocks[bi].minis[mi].start <= address < blocks[bi].minis[mi].End()
    ensures WellFormed(blocks[bi := StoreRun(blocks[bi], mi, address, size, data)])
    ensures FindBlock(blocks[bi := StoreRun(blocks[bi], mi, address, size, data)], address) == bi
    ensures FindMini(StoreRun(blocks[bi], mi, address, size, data).minis, address) == mi
  {
    var b := blocks[bi];
    var c := StoreRun(b, mi, address, size, data);
    StoreRunShape(b, mi, address, size, data);
    var after := blocks[bi := c];
    forall i | 0 <= i < |blocks| ensures SameShape(blocks[i], after[i]) {
      if i != bi {
        assert after[i] == blocks[i];
      }
    }
    SameLayoutWellFormed(blocks, after);
    FindBlockSame(blocks, bi, c, address);
    FindMiniSame(b.minis, c.minis, address);
  }

  /** The transfer leaves the masks, so a readable run stays readable. */
  lemma StoreRunReadable(b: Block, mi: nat, address: nat, size: nat, data: seq<byte>)
    requires BlockOk(b) && |data| >= size
    requires mi < |b.minis| && b.minis[mi].start <= address < b.minis[mi].End()
    requires b.start <= address < b.End()
    requires AllReadable(b.minis[mi..])
    ensures AllReadable(StoreRun(b, mi, address, size, data).minis[mi..])
  {
    StoreRunShape(b, mi, address, size, data);
    SameShapeReadable(b, StoreRun(b, mi, address, size, data), mi);
  }

  /** A run whose masks are unchanged stays readable. */
  lemma SameShapeReadable(a: Block, c: Block, mi: nat)
    requires SameShape(a, c) && mi <= |a.minis|
    requires AllReadable(a.minis[mi..])
    ensures AllReadable(c.minis[mi..])
  {
    forall k | 0 <= k < |c.minis[mi..]| ensures CanRead(c.minis[mi..][k].perm) {
      assert c.minis[mi..][k] == c.minis[mi + k] && a.minis[mi..][k] == a.minis[mi + k];
    }
  }

  /** Within one block: after the transfer, the bytes from `address` on, as
      many as were stored, are the bytes of `data`; the run from `mi` keeps
      its total size. */
  lemma StoreRunReadBack(b: Block, mi: nat, address: nat, size: nat, data: seq<byte>, off: nat, n: nat)
    requires BlockOk(b) && |data| >= size
    requires mi < |b.minis| && b.minis[mi].start <= address < b.minis[mi].End()
    requires b.start <= address < b.End()
    requires off == address - b.minis[mi].start && n == Min(size, b.End() - address)
    ensures off + n <= |Flat(StoreRun(b, mi, address, size, data).minis[mi..])|
    ensures Flat(StoreRun(b, mi, address, size, data).minis[mi..])[off .. off + n] == data[..n]
    ensures SumSizes(StoreRun(b, mi, address, size, data).minis[mi..]) == SumSizes(b.minis[mi..])
    ensures StoreRun(b, mi, address, size, data).End() == b.End()
    ensures StoreRun(b, mi, address, size, data).minis[mi].start == b.minis[mi].start
  {
    var c := StoreRun(b, mi, address, size, data);
    StoreRunShape(b, mi, address, size, data);
    var off1, n1 := StoreRunTail(b, mi, address, size, data);
    TailSize(b, mi);
    TailSize(c, mi);
    var f := Flat(b.minis[mi..]);
    SliceMiddle(f[..off], data[..n], f[off + n..]);
  }

  /** Reading a readable run right after storing into it gives back the
      bytes stored. */
  lemma ReadAfterStore(blocks: seq<Block>, address: nat, size: nat, data: seq<byte>, bi: nat, mi: nat)
    requires WellFormed(blocks) && |data| >= size
    requires bi == FindBlock(blocks, address) && bi < |blocks|
    requires mi == FindMini(blocks[bi].minis, address) && mi < |blocks[bi].minis|
    requires AllReadable(blocks[bi].minis[mi..])
    requires WellFormed(blocks[bi := StoreRun(blocks[bi], mi, address, size, data)])
    ensures Min(size, blocks[bi].End() - address) <= |data|
    ensures Read(blocks[bi := StoreRun(blocks[bi], mi, address, size, data)], address, size)
      == ReadOk(data[..Min(size, blocks[bi].End() - address)], SumSizes(blocks[bi].minis[mi..]) < size)
  {
    WriteKeepsLookup(blocks, address, size, data, bi, mi);
    StoreRunReadable(blocks[bi], mi, address, size, data);
    var c := StoreRun(blocks[bi], mi, address, size, data);
    var off := address - blocks[bi].minis[mi].start;
    var n := Min(size, blocks[bi].End() - address);
    StoreRunReadBack(blocks[bi], mi, address, size, data, off, n);
    ReadAt(blocks[bi := c], address, size, bi, mi, off, n);
  }

  /** Writing and then reading back at the same address gives the bytes
      written, with the same warning, whenever the region can be read. */
  lemma WriteThenRead(blocks: seq<Block>, address: nat, size: nat, data: seq<byte>)
    requires WellFormed(blocks) && |data| >= size
    requires Write(blocks, address, size, data).1.Written?
    requires Read(blocks, address, size).ReadOk?
    ensures WellFormed(Write(blocks, address, size, data).0)
    ensures |Read(blocks, address, size).data| <= |data|
    ensures Read(Write(blocks, address, size, data).0, address, size)
      == ReadOk(data[..|Read(blocks, address, size).data|], Write(blocks, address, size, data).1.warned)
  {
    var bi, mi := WriteFound(blocks, address, size, data);
    WriteKeepsLookup(blocks, address, size, data, bi, mi);
    ReadAt(blocks, address, size, bi, mi, address - blocks[bi].minis[mi].start, Min(size, blocks[bi].End() - address));
    ReadAfterStore(blocks, address, size, data, bi, mi);
  }

  /** Inside the block, the transfer replaces the bytes from `address` on,
      `size` of them capped at the block end, by the first bytes of `data`;
      every other byte of the block keeps its value. */
  lemma StoreRunByte(b: Block, mi: nat, address: nat, size: nat, data: seq<byte>, x: nat)
    requires BlockOk(b) && |data| >= size
    requires mi < |b.minis| && b.minis[mi].start <= address < b.minis[mi].End()
    requires b.start <= address < b.End()
    requires b.start <= x < b.End()
    ensures x - b.start < |Flat(b.minis)|
    ensures x - b.start < |Flat(StoreRun(b, mi, address, size, data).minis)|
    ensures Flat(StoreRun(b, mi, address, size, data).minis)[x - b.start]
      == if address <= x < address + Min(size, b.End() - address) then data[x - address]
         else Flat(b.minis)[x - b.start]
  {
    var c := StoreRun(b, mi, address, size, data);
    StoreRunShape(b, mi, address, size, data);
    var off, n := StoreRunTail(b, mi, address, size, data);
    SpliceByte(b, c, mi, address, off, data, n, x);
  }

  /** Byte `x` of a block whose run from miniblock `mi` has had the first
      `n` bytes of `data` written over it from `address`, the miniblocks
      before `mi` being unchanged. */
  lemma SpliceByte(b: Block, c: Block, mi: nat, address: nat, off: nat, data: seq<byte>, n: nat, x: nat)
    requires BlockOk(b) && SameShape(b, c) && mi < |b.minis|
    requires c.minis[..mi] == b.minis[..mi]
    requires address == b.minis[mi].start + off && n <= |data|
    requires off + n <= |Flat(b.minis[mi..])|
    requires Flat(c.minis[mi..]) == Flat(b.minis[mi..])[..off] + data[..n] + Flat(b.minis[mi..])[off + n..]
    requires b.start <= x < b.End()
    ensures x - b.start < |Flat(b.minis)| && x - b.start < |Flat(c.minis)|
    ensures Flat(c.minis)[x - b.start]
      == if address <= x < address + n then data[x - address] else Flat(b.minis)[x - b.start]
  {
    SameShapeOk(b, c);
    BlockByte(b, mi, x);
    BlockByte(c, mi, x);
    if b.minis[mi].start <= x {
      SpliceAt(Flat(b.minis[mi..]), off, data[..n], x - b.minis[mi].start);
    }
  }

  /** Replacing block `bi` by one with the same range leaves every byte
      outside that range as it was. */
  lemma OtherBlockByte(blocks: seq<Block>, bi: nat, c: Block, x: nat)
    requires bi < |blocks| && c.start == blocks[bi].start && c.size == blocks[bi].size
    requires !(blocks[bi].start <= x < blocks[bi].End())
    ensures ByteAt(blocks[bi := c], x) == ByteAt(blocks, x)
  {
    FindBlockSame(blocks, bi, c, x);
    var j := FindBlock(blocks, x);
    if j < |blocks| {
      assert (blocks[bi := c])[j] == blocks[j];
    }
  }

  /** One byte of the arena after a successful transfer into block `bi`:
      the bytes written read as `data`, every other address as before. */
  lemma WriteByte(blocks: seq<Block>, address: nat, size: nat, data: seq<byte>, bi: nat, mi: nat, x: nat)
    requires WellFormed(blocks) && |data| >= size
    requires bi == FindBlock(blocks, address) && bi < |blocks|
    requires mi == FindMini(blocks[bi].minis, address) && mi < |blocks[bi].minis|
    ensures ByteAt(blocks[bi := StoreRun(blocks[bi], mi, address, size, data)], x)
      == if address <= x < address + Min(size, blocks[bi].End() - address) then Some(data[x - address])
         else ByteAt(blocks, x)
  {
    var b := blocks[bi];
    var c := StoreRun(b, mi, address, size, data);
    var n := Min(size, b.End() - address);
    WriteKeepsRange(blocks, address, size, data, bi, mi);
    if b.start <= x < b.End() {
      WriteBlockByte(blocks, address, size, data, bi, mi, x);
    }
    ReplaceByte(blocks, bi, c, address, n, data, x);
  }

  /** The block a write stores into keeps its range, and the list stays
      well formed. */
  lemma WriteKeepsRange(blocks: seq<Block>, address: nat, size: nat, data: seq<byte>, bi: nat, mi: nat)
    requires WellFormed(blocks) && |data| >= size
    requires bi == FindBlock(blocks, address) && bi < |blocks|
    requires mi == FindMini(blocks[bi].minis, address) && mi < |blocks[bi].minis|
    ensures WellFormed(blocks[bi := StoreRun(blocks[bi], mi, address, size, data)])
    ensures StoreRun(blocks[bi], mi, address, size, data).start == blocks[bi].start
    ensures StoreRun(blocks[bi], mi, address, size, data).size == blocks[bi].size
    ensures blocks[bi].start <= address && address + Min(size, blocks[bi].End() - address) <= blocks[bi].End()
  {
    WriteKeepsLookup(blocks, address, size, data, bi, mi);
    StoreRunShape(blocks[bi], mi, address, size, data);
  }

  /** `StoreRunByte` for the block a write stores into. */
  lemma WriteBlockByte(blocks: seq<Block>, address: nat, size: nat, data: seq<byte>, bi: nat, mi: nat, x: nat)
    requires WellFormed(blocks) && |data| >= size
    requires bi == FindBlock(blocks, address) && bi < |blocks|
    requires mi == FindMini(blocks[bi].minis, address) && mi < |blocks[bi].minis|
    requires blocks[bi].start <= x < blocks[bi].End()
    ensures x - blocks[bi].start < |Flat(blocks[bi].minis)|
    ensures x - blocks[bi].start < |Flat(StoreRun(blocks[bi], mi, address, size, data).minis)|
    ensures Flat(StoreRun(blocks[bi], mi, address, size, data).minis)[x - blocks[bi].start]
      == if address <= x < address + Min(size, blocks[bi].End() - address) then data[x - address]
         else Flat(blocks[bi].minis)[x - blocks[bi].start]
  {
    assert BlockOk(blocks[bi]);
    StoreRunByte(blocks[bi], mi, address, size, data, x);
  }

  /** Replacing block `bi` by a block with the same range whose bytes are
      those of `data` over `[address, address + n)` and the old ones
      elsewhere: every address reads as that. */
  lemma ReplaceByte(blocks: seq<Block>, bi: nat, c: Block, address: nat, n: nat, data: seq<byte>, x: nat)
    requires WellFormed(blocks) && bi < |blocks| && WellFormed(blocks[bi := c])
    requires c.start == blocks[bi].start && c.size == blocks[bi].size
    requires blocks[bi].start <= address && address + n <= blocks[bi].End() && n <= |data|
    requires blocks[bi].start <= x < blocks[bi].End() ==>
      && x - blocks[bi].start < |Flat(c.minis)| && x - blocks[bi].start < |Flat(blocks[bi].minis)|
      && Flat(c.minis)[x - blocks[bi].start]
         == if address <= x < address + n then data[x - address] else Flat(blocks[bi].minis)[x - blocks[bi].start]
    ensures ByteAt(blocks[bi := c], x)
      == if address <= x < address + n then Some(data[x - address]) else ByteAt(blocks, x)
  {
    var after := blocks[bi := c];
    if blocks[bi].start <= x < blocks[bi].End() {
      var y := x - c.start;
      assert ByteAt(after, x) == Some(Flat(c.minis)[y]) by {
        ByteAtIn(after, bi, x);
        assert after[bi] == c;
      }
      assert ByteAt(blocks, x) == Some(Flat(blocks[bi].minis)[y]) by {
        ByteAtIn(blocks, bi, x);
      }
    } else {
      OtherBlockByte(blocks, bi, c, x);
    }
  }

  /** What a successful `write` does to the arena: the bytes from `address`
      on, as many as asked but not past the end of the block holding it,
      now read as the first bytes of `data`; every other address holds what
      it held before, and no address gains or loses a byte. */
  lemma WriteBytes(blocks: seq<Block>, address: nat, size: nat, data: seq<byte>) returns (bi: nat, mi: nat)
    requires WellFormed(blocks) && |data| >= size
    requires Write(blocks, address, size, data).1.Written?
    ensures bi < |blocks| && blocks[bi].start <= address < blocks[bi].End()
    ensures mi < |blocks[bi].minis| && blocks[bi].minis[mi].start <= address < blocks[bi].minis[mi].End()
    ensures Write(blocks, address, size, data).1.warned == (blocks[bi].End() - blocks[bi].minis[mi].start < size)
    ensures forall x: nat ::
              ByteAt(Write(blocks, address, size, data).0, x)
              == (if address <= x < address + Min(size, blocks[bi].End() - address) then Some(data[x - address])
                  else ByteAt(blocks, x))
  {
    bi, mi := WriteFound(blocks, address, size, data);
    WriteKeepsLookup(blocks, address, size, data, bi, mi);
    TailSize(blocks[bi], mi);
    forall x: nat ensures ByteAt(Write(blocks, address, size, data).0, x)
      == if address <= x < address + Min(size, blocks[bi].End() - address) then Some(data[x - address])
         else ByteAt(blocks, x)
    {
      WriteByte(blocks, address, size, data, bi, mi, x);
    }
  }

  /** In a tiled block, the run the permission check walks — from the
      miniblock holding `x` to the end of the block — is exactly the
      miniblocks that end after `x`. */
  lemma RunIsTail(b: Block, x: nat, mi: nat)
    requires BlockOk(b) && b.start <= x < b.End()
    requires mi == FindMini(b.minis, x)
    ensures mi < |b.minis|
    ensures forall k :: 0 <= k < |b.minis| ==> (mi <= k <==> x < b.minis[k].End())
  {
    var _ := FlatByte(b.minis, b.start, b.End(), x);
    forall k | 0 <= k < |b.minis| ensures mi <= k <==> x < b.minis[k].End() {
      if k < mi {
        TilesOrdered(b.minis, b.start, b.End(), k, mi);
      } else if mi < k {
        TilesOrdered(b.minis, b.start, b.End(), mi, k);
      }
    }
  }

  /** Read bit set on the run from the miniblock holding `x` on, stated
      without the scan. */
  lemma ReadableRun(b: Block, x: nat, mi: nat)
    requires BlockOk(b) && b.start <= x < b.End()
    requires mi == FindMini(b.minis, x)
    ensures mi < |b.minis|
    ensures AllReadable(b.minis[mi..])
      <==> forall k :: 0 <= k < |b.minis| && x < b.minis[k].End() ==> CanRead(b.minis[k].perm)
  {
    RunIsTail(b, x, mi);
    assert forall j :: 0 <= j < |b.minis| - mi ==> b.minis[mi..][j] == b.minis[mi + j];
  }

  /** Write bit set on the run from the miniblock holding `x` on, stated
      without the scan. */
  lemma WritableRun(b: Block, x: nat, mi: nat)
    requires BlockOk(b) && b.start <= x < b.End()
    requires mi == FindMini(b.minis, x)
    ensures mi < |b.minis|
    ensures AllWritable(b.minis[mi..])
      <==> forall k :: 0 <= k < |b.minis| && x < b.minis[k].End() ==> CanWrite(b.minis[k].perm)
  {
    RunIsTail(b, x, mi);
    assert forall j :: 0 <= j < |b.minis| - mi ==> b.minis[mi..][j] == b.minis[mi + j];
  }

  /** When `read` fails: "Invalid address" exactly when no block holds the
      address, "Invalid permissions" exactly when some block holds it and a
      miniblock of that block ending after it lacks the read bit. */
  lemma ReadOutcome(blocks: seq<Block>, address: nat, size: nat)
    requires WellFormed(blocks)
    ensures Read(blocks, address, size).ReadBadAddress?
      <==> forall i :: 0 <= i < |blocks| ==> !(blocks[i].start <= address < blocks[i].End())
    ensures Read(blocks, address, size).ReadBadPerm?
      <==> exists i, k :: && 0 <= i < |blocks| && blocks[i].start <= address < blocks[i].End()
                          && 0 <= k < |blocks[i].minis| && address < blocks[i].minis[k].End()
                          && !CanRead(blocks[i].minis[k].perm)
  {
    var bi := FindBlock(blocks, address);
    if bi < |blocks| {
      ReadableRun(blocks[bi], address, FindMini(blocks[bi].minis, address));
      forall i | 0 <= i < |blocks| && blocks[i].start <= address < blocks[i].End() ensures i == bi {
        FindBlockAt(blocks, i, address);
      }
    }
  }

  /** When `write` fails: "Invalid address" exactly when no block holds the
      address, "Invalid permissions" exactly when some block holds it and a
      miniblock of that block ending after it lacks the write bit. */
  lemma WriteOutcome(blocks: seq<Block>, address: nat, size: nat, data: seq<byte>)
    requires WellFormed(blocks) && |data| >= size
    ensures Write(blocks, address, size, data).1.WriteBadAddress?
      <==> forall i :: 0 <= i < |blocks| ==> !(blocks[i].start <= address < blocks[i].End())
    ensures Write(blocks, address, size, data).1.WriteBadPerm?
      <==> exists i, k :: && 0 <= i < |blocks| && blocks[i].start <= address < blocks[i].End()
                          && 0 <= k < |blocks[i].minis| && address < blocks[i].minis[k].End()
                          && !CanWrite(blocks[i].minis[k].perm)
  {
    var bi := FindBlock(blocks, address);
    if bi < |blocks| {
      WritableRun(blocks[bi], address, FindMini(blocks[bi].minis, address));
      forall i | 0 <= i < |blocks| && blocks[i].start <= address < blocks[i].End() ensures i == bi {
        FindBlockAt(blocks, i, address);
      }
    }
  }

  /** The copy loop of `write` as the source has it: each miniblock of the
      run is filled from the offset of `address` to its end, whether or not
      `checkSize` bytes were already copied, and the next miniblock is taken
      while fewer than `checkSize` were. `None` stands for the undefined
      behaviour of taking a miniblock past the end of the list or a byte
      past the end of the caller's buffer `buf`. */
  function StoreLoop(ms: seq<Miniblock>, address: nat, idx: nat, checkSize: nat, buf: seq<byte>): (r: Option<seq<Miniblock>>)
    requires forall k :: 0 <= k < |ms| ==> |ms[k].buffer| == ms[k].size
    ensures r.Some? ==> |r.value| == |ms|
    decreases |ms|
  {
    if idx >= checkSize then Some(ms)
    else if ms == [] then None
    else
      var m := ms[0];
      var j := if address > m.start then address - m.start else 0;
      var cnt := if j < m.size then m.size - j else 0;
      if idx + cnt > |buf| then None
      else
        var m2 := if cnt == 0 then m else m.(buffer := m.buffer[..j] + buf[idx .. idx + cnt] + m.buffer[j + cnt..]);
        match StoreLoop(ms[1..], address, idx + cnt, checkSize, buf)
        case None => None
        case Some(rest) => Some([m2] + rest)
  }

  /** `write` exactly as the source has it (vma.c:472-529): the lookups and
      the permission walk of `Write`, then the copy loop of `StoreLoop`
      bounded by `size`, or by the run's total size after the warning. */
  function WriteAsWritten(blocks: seq<Block>, address: nat, size: nat, buf: seq<byte>): (r: Option<(seq<Block>, WriteStatus)>)
    requires WellFormed(blocks) && |buf| >= size
    ensures r.Some? && !r.value.1.Written? ==> r.value.0 == blocks
  {
    var bi := FindBlock(blocks, address);
    if bi == |blocks| then Some((blocks, WriteBadAddress))
    else
      var ms := blocks[bi].minis;
      var mi := FindMini(ms, address);
      if mi == |ms| then Some((blocks, WriteBadAddress))
      else if !AllWritable(ms[mi..]) then Some((blocks, WriteBadPerm))
      else
        var checkSum := SumSizes(ms[mi..]);
        var checkSize := if checkSum < size then checkSum else size;
        match StoreLoop(ms[mi..], address, 0, checkSize, buf)
        case None => None
        case Some(st) => Some((blocks[bi := blocks[bi].(minis := ms[..mi] + st)], Written(checkSum < size)))
  }

  /** A fresh block `[0, 10)` of one read-write miniblock holding zeros. */
  function ZeroBlock(): (b: Block)
    ensures WellFormed([b])
  {
    Block(0, 10, [Miniblock(0, 10, DEF_PERM, seq(10, _ => 0))])
  }

  /** Ten bytes of caller's buffer, all ones. */
  function Ones(): (s: seq<byte>)
    ensures |s| == 10
  {
    seq(10, _ => 1)
  }

  /** As written, `WRITE 0 3` into that block copies ten bytes: the seven
      past the requested three come from the rest of the caller's buffer.
      `Write` changes only the first three. */
  lemma WriteAsWrittenOverruns()
    ensures WriteAsWritten([ZeroBlock()], 0, 3, Ones())
      == Some(([Block(0, 10, [Miniblock(0, 10, DEF_PERM, Ones())])], Written(false)))
    ensures Write([ZeroBlock()], 0, 3, Ones()).0[0].minis[0].buffer
      == [1, 1, 1, 0, 0, 0, 0, 0, 0, 0]
  {
    OverrunAsWritten();
    OverrunClamped();
  }

  /** The copy loop as written, for `WRITE 0 3` into `ZeroBlock`. */
  lemma OverrunAsWritten()
    ensures WriteAsWritten([ZeroBlock()], 0, 3, Ones())
      == Some(([Block(0, 10, [Miniblock(0, 10, DEF_PERM, Ones())])], Written(false)))
  {
    var m := ZeroBlock().minis[0];
    var blocks := [ZeroBlock()];
    assert blocks[0].minis == [m] && blocks[0].minis[0..] == [m];
    assert SumSizes([m]) == 10;
    assert StoreLoop([m], 0, 0, 3, Ones()) == Some([m.(buffer := Ones())]) by {
      assert m.buffer[..0] + Ones()[0..0 + 10] + m.buffer[0 + 10..] == Ones();
      assert [m][1..] == [];
      assert StoreLoop([], 0, 10, 3, Ones()) == Some([]);
      assert [m.(buffer := Ones())] + [] == [m.(buffer := Ones())];
    }
    assert FindBlock(blocks, 0) == 0 && FindMini([m], 0) == 0;
    assert AllWritable([m]);
    assert [m][..0] + [m.(buffer := Ones())] == [Miniblock(0, 10, DEF_PERM, Ones())];
    assert blocks[0 := blocks[0].(minis := [Miniblock(0, 10, DEF_PERM, Ones())])]
      == [Block(0, 10, [Miniblock(0, 10, DEF_PERM, Ones())])];
  }

  /** The clamped transfer, for the same `WRITE 0 3`. */
  lemma OverrunClamped()
    ensures Write([ZeroBlock()], 0, 3, Ones()).0[0].minis[0].buffer
      == [1, 1, 1, 0, 0, 0, 0, 0, 0, 0]
  {
    var m := ZeroBlock().minis[0];
    assert [ZeroBlock()][0].minis[0..] == [m];
    var d := Ones()[..3];
    assert m.buffer[..0] + d[..3] + m.buffer[3..] == [1, 1, 1, 0, 0, 0, 0, 0, 0, 0];
    assert Store([m], 0, d) == [m.(buffer := m.buffer[..0] + d[..3] + m.buffer[3..])] + Store([], 0, d[3..]);
  }

  /** As written, `WRITE 5 10` into that block runs off the end of the
      miniblock list after five bytes (a NULL dereference), whereas `Write`
      stores the five bytes that fit without a warning. */
  lemma WriteAsWrittenCrashes()
    ensures WriteAsWritten([ZeroBlock()], 5, 10, Ones()) == None
    ensures Write([ZeroBlock()], 5, 10, Ones()).1 == Written(false)
    ensures Write([ZeroBlock()], 5, 10, Ones()).0[0].minis[0].buffer
      == [0, 0, 0, 0, 0, 1, 1, 1, 1, 1]
  {
    var m := ZeroBlock().minis[0];
    assert m == Miniblock(0, 10, DEF_PERM, seq(10, _ => 0));
    assert [ZeroBlock()][0].minis[0..] == [m];
    assert SumSizes([m]) == 10;
    assert [m][1..] == [];
    assert StoreLoop([], 5, 5, 10, Ones()) == None;
    assert StoreLoop([m], 5, 0, 10, Ones()) == None;
    var d := Ones()[..5];
    assert m.buffer[..5] + d[..5] + m.buffer[10..] == [0, 0, 0, 0, 0, 1, 1, 1, 1, 1];
    assert Store([m], 5, d) == [m.(buffer := m.buffer[..5] + d[..5] + m.buffer[10..])] + Store([], 0, d[5..]);
  }
}
