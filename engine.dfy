/** The arena of vma.c as the program holds it: one record whose block list
    the operations update in place.  Each method runs the scans and copy
    loops of its C function and is proved to leave the state that the
    matching function of `Allocation`, `Deallocation`, `Access` or
    `Protection` describes. */
module Engine {
  import opened DoublyLinkedList
  import opened Regions
  import opened Allocation
  import opened Deallocation
  import opened Access
  import opened Protection

  /** Addresses and sizes are `uint64_t` in the source. */
  const U64: nat := 0x1_0000_0000_0000_0000

  /** The block scan shared by `read`, `write` and `mprotect`: the first block
      whose half-open range holds `address`, or `|blocks|`. */
  method LocateBlock(blocks: seq<Block>, address: nat) returns (bi: nat)
    ensures bi == FindBlock(blocks, address)
    ensures bi < |blocks| ==> blocks[bi].start <= address < blocks[bi].End()
  {
    bi := 0;
    while bi < |blocks| && !(blocks[bi].start <= address < blocks[bi].End())
      invariant bi <= |blocks|
      invariant forall i :: 0 <= i < bi ==> !(blocks[i].start <= address < blocks[i].End())
    {
      bi := bi + 1;
    }
  }

  /** The miniblock scan of `read` and `write`: the first miniblock whose
      half-open range holds `address`, or `|ms|`. */
  method LocateMini(ms: seq<Miniblock>, address: nat) returns (mi: nat)
    ensures mi == FindMini(ms, address)
    ensures mi < |ms| ==> ms[mi].start <= address < ms[mi].End()
  {
    mi := 0;
    while mi < |ms| && !(ms[mi].start <= address < ms[mi].End())
      invariant mi <= |ms|
      invariant forall i :: 0 <= i < mi ==> !(ms[i].start <= address < ms[i].End())
    {
      mi := mi + 1;
    }
  }

  /** The miniblock scan of `mprotect`: the first miniblock starting exactly
      at `address`, or `|ms|`. */
  method LocateStart(ms: seq<Miniblock>, address: nat) returns (k: nat)
    ensures k == FindStart(ms, address)
    ensures k < |ms| ==> ms[k].start == address
  {
    k := 0;
    while k < |ms| && ms[k].start != address
      invariant k <= |ms|
      invariant forall i :: 0 <= i < k ==> ms[i].start != address
    {
      k := k + 1;
    }
  }

  /** Byte `j` of miniblock `c` sits, in the contents of the run from
      miniblock `mi`, at the distance between the two miniblocks' starts
      plus `j`. */
  lemma RunByte(b: Block, mi: nat, c: nat, j: nat)
    requires BlockOk(b) && mi <= c < |b.minis| && j < b.minis[c].size
    ensures b.minis[mi].start <= b.minis[c].start
    ensures b.minis[c].start - b.minis[mi].start + j < |Flat(b.minis[mi..])|
    ensures Flat(b.minis[mi..])[b.minis[c].start - b.minis[mi].start + j] == b.minis[c].buffer[j]
  {
    var tail := b.minis[mi..];
    TailFacts(b, mi);
    TilesStart(tail, b.minis[mi].start, b.End(), c - mi);
    FlatAt(tail, c - mi, j);
  }

  /** Facts about the tiling of a block that the copy loops walk by. */
  lemma RunFacts(b: Block, mi: nat, c: nat)
    requires BlockOk(b) && mi <= c < |b.minis|
    ensures b.minis[mi].start <= b.minis[c].start
    ensures mi < c ==> b.minis[mi].End() <= b.minis[c].start
    ensures b.minis[c].End() <= b.End()
    ensures c + 1 < |b.minis| ==> b.minis[c].End() == b.minis[c + 1].start
    ensures c + 1 == |b.minis| ==> b.minis[c].End() == b.End()
    ensures b.minis[c].size == |b.minis[c].buffer| && b.minis[c].size > 0
  {
    if mi < c {
      TilesOrdered(b.minis, b.start, b.End(), mi, c);
    }
    TilesBounds(b.minis, b.start, b.End(), c);
  }

  /** The walk of `read` from miniblock `mi` to the end of the list: sum the
      sizes (`check_size`) and stop at the first miniblock without the read
      bit. */
  method ReadableWalk(ms: seq<Miniblock>, mi: nat) returns (ok: bool, checkSize: nat)
    requires mi <= |ms|
    ensures ok == AllReadable(ms[mi..])
    ensures ok ==> checkSize == SumSizes(ms[mi..])
  {
    checkSize := 0;
    var t := mi;
    while t < |ms|
      invariant mi <= t <= |ms|
      invariant checkSize == SumSizes(ms[mi..t])
      invariant forall i :: mi <= i < t ==> CanRead(ms[i].perm)
    {
      assert ms[mi..t + 1][..t - mi] == ms[mi..t];
      checkSize := checkSize + ms[t].size;
      if ms[t].perm < 4 {
        assert ms[mi..][t - mi] == ms[t];
        return false, checkSize;
      }
      t := t + 1;
    }
    assert ms[mi..t] == ms[mi..];
    forall i | 0 <= i < |ms[mi..]| ensures CanRead(ms[mi..][i].perm) {
      assert ms[mi..][i] == ms[mi + i];
    }
    return true, checkSize;
  }

  /** The walk of `write`: the same, with the write test. */
  method WritableWalk(ms: seq<Miniblock>, mi: nat) returns (ok: bool, checkSize: nat)
    requires mi <= |ms|
    ensures ok == AllWritable(ms[mi..])
    ensures ok ==> checkSize == SumSizes(ms[mi..])
  {
    checkSize := 0;
    var t := mi;
    while t < |ms|
      invariant mi <= t <= |ms|
      invariant checkSize == SumSizes(ms[mi..t])
      invariant forall i :: mi <= i < t ==> CanWrite(ms[i].perm)
    {
      assert ms[mi..t + 1][..t - mi] == ms[mi..t];
      checkSize := checkSize + ms[t].size;
      var perm := ms[t].perm;
      if perm != 2 && perm != 3 && perm != 6 && perm != 7 {
        assert ms[mi..][t - mi] == ms[t];
        return false, checkSize;
      }
      t := t + 1;
    }
    assert ms[mi..t] == ms[mi..];
    forall i | 0 <= i < |ms[mi..]| ensures CanWrite(ms[mi..][i].perm) {
      assert ms[mi..][i] == ms[mi + i];
    }
    return true, checkSize;
  }

  /** The copy loop of `read`: bytes from `address` on, miniblock after
      miniblock, until `checkSize` bytes are out or the block's miniblocks
      run out. */
  method CopyOut(b: Block, mi: nat, address: nat, checkSize: nat) returns (out: seq<byte>)
    requires BlockOk(b) && mi < |b.minis|
    requires b.minis[mi].start <= address < b.minis[mi].End() && address < b.End()
    ensures address - b.minis[mi].start + |out| <= |Flat(b.minis[mi..])|
    ensures |out| == Min(checkSize, b.End() - address)
    ensures out == Flat(b.minis[mi..])[address - b.minis[mi].start .. address - b.minis[mi].start + |out|]
  {
    var ms := b.minis;
    ghost var tail := ms[mi..];
    ghost var off := address - ms[mi].start;
    TailSize(b, mi);
    out := [];
    var c := mi;
    while |out| < checkSize && c < |ms|
      invariant mi <= c <= |ms|
      invariant off + |out| <= |Flat(tail)| && |out| <= checkSize
      invariant out == Flat(tail)[off .. off + |out|]
      invariant c == mi ==> out == []
      invariant c > mi && |out| < checkSize ==> off + |out| == ms[c - 1].End() - ms[mi].start
    {
      RunFacts(b, mi, c);
      out := CopyMini(b, mi, c, address, checkSize, out);
      c := c + 1;
    }
    if c == |ms| && |out| < checkSize {
      RunFacts(b, mi, c - 1);
    }
  }

  /** One pass of the copy loop of `read`: the bytes of miniblock `c` from
      where `address` falls in it (0 in the later ones), until `checkSize`
      bytes are out. */
  method CopyMini(b: Block, mi: nat, c: nat, address: nat, checkSize: nat, out: seq<byte>) returns (out': seq<byte>)
    requires BlockOk(b) && mi <= c < |b.minis|
    requires b.minis[mi].start <= address < b.minis[mi].End()
    requires |out| < checkSize
    requires address - b.minis[mi].start + |out| <= |Flat(b.minis[mi..])|
    requires out == Flat(b.minis[mi..])[address - b.minis[mi].start .. address - b.minis[mi].start + |out|]
    requires c == mi ==> out == []
    requires c > mi ==> address - b.minis[mi].start + |out| == b.minis[c].start - b.minis[mi].start
    ensures |out'| <= checkSize
    ensures address - b.minis[mi].start + |out'| <= |Flat(b.minis[mi..])|
    ensures out' == Flat(b.minis[mi..])[address - b.minis[mi].start .. address - b.minis[mi].start + |out'|]
    ensures |out'| < checkSize ==> address - b.minis[mi].start + |out'| == b.minis[c].End() - b.minis[mi].start
  {
    var ms := b.minis;
    ghost var tail := ms[mi..];
    ghost var off := address - ms[mi].start;
    var m := ms[c];
    RunFacts(b, mi, c);
    out' := out;
    var j := if address > m.start then address - m.start else 0;
    while j < m.size
      invariant j <= m.size
      invariant off + |out'| == m.start - ms[mi].start + j
      invariant |out'| <= checkSize && off + |out'| <= |Flat(tail)|
      invariant out' == Flat(tail)[off .. off + |out'|]
    {
      if |out'| == checkSize {
        return;
      }
      RunByte(b, mi, c, j);
      SliceGrow(Flat(tail), off, off + |out'|, out', m.buffer[j]);
      out' := out' + [m.buffer[j]];
      j := j + 1;
    }
  }

  /** The scan of `alloc_block` for the insertion point: the first block
      that does not start below `address`, or `|blocks|`. */
  method LocateInsertion(blocks: seq<Block>, address: nat) returns (j: nat)
    ensures j == FirstAtOrAfter(blocks, address)
  {
    j := 0;
    while j < |blocks| && address > blocks[j].start
      invariant j <= |blocks|
      invariant forall i :: 0 <= i < j ==> blocks[i].start < address
    {
      j := j + 1;
    }
  }

  /** The block scan of `free_block`, whose bound includes the block's end
      address: the first block with `start <= address <= end`, or
      `|blocks|`. */
  method LocateContaining(blocks: seq<Block>, address: nat) returns (idx: nat)
    ensures idx == FindContaining(blocks, address)
  {
    idx := 0;
    while idx < |blocks| && !(blocks[idx].start <= address <= blocks[idx].End())
      invariant idx <= |blocks|
      invariant forall i :: 0 <= i < idx ==> !(blocks[i].start <= address <= blocks[i].End())
    {
      idx := idx + 1;
    }
  }

  /** The miniblock scan of `free_block`: walk from the head until a
      miniblock starts at `address`, adding up the sizes passed
      (`left_size`); at the last miniblock without a match, give up. */
  method LocateFreed(ms: seq<Miniblock>, address: nat) returns (k: nat, leftSize: nat)
    requires ms != []
    ensures k == FindStart(ms, address)
    ensures k < |ms| ==> leftSize == SumSizes(ms[..k])
  {
    k, leftSize := 0, 0;
    while ms[k].start != address
      invariant k < |ms|
      invariant forall i :: 0 <= i < k ==> ms[i].start != address
      invariant leftSize == SumSizes(ms[..k])
      decreases |ms| - k
    {
      if k == |ms| - 1 {
        return |ms|, leftSize;
      }
      assert ms[..k + 1][..k] == ms[..k];
      leftSize := leftSize + ms[k].size;
      k := k + 1;
    }
  }

  /** Storing `d[idx0..]` into miniblock `c` and beyond, once `k` bytes
      went into miniblock `c` from offset `off`: that miniblock is done and
      the rest of `d` goes on to the following ones. */
  lemma StoreStep(prefix: seq<Miniblock>, ms: seq<Miniblock>, c: nat, off: nat,
                  d: seq<byte>, idx0: nat, idx: nat, m: Miniblock)
    requires c < |ms| && off <= |ms[c].buffer| && idx0 <= idx <= |d|
    requires idx - idx0 == Min(|d| - idx0, |ms[c].buffer| - off)
    requires m == ms[c].(buffer := ms[c].buffer[..off] + d[idx0..idx] + ms[c].buffer[off + (idx - idx0)..])
    ensures prefix + Store(ms[c..], off, d[idx0..]) == (prefix + [m]) + Store(ms[c + 1..], 0, d[idx..])
  {
    var k := idx - idx0;
    assert ms[c..][1..] == ms[c + 1..];
    assert d[idx0..][..k] == d[idx0..idx];
    assert d[idx0..][k..] == d[idx..];
  }

  /** A buffer about to be filled from offset `j0`: nothing stored yet. */
  lemma BufferStart(orig: seq<byte>, j0: nat, data: seq<byte>, idx0: nat)
    requires j0 <= |orig| && idx0 <= |data|
    ensures orig == orig[..j0] + data[idx0..idx0] + orig[j0..]
  {
    assert data[idx0..idx0] == [];
  }

  /** One more byte of `data` stored at offset `j` of a buffer being filled
      from offset `j0`. */
  lemma BufferStep(orig: seq<byte>, buf: seq<byte>, j0: nat, j: nat, data: seq<byte>, idx0: nat, idx: nat)
    requires j0 <= j < |orig| && idx0 <= idx < |data| && idx - idx0 == j - j0
    requires buf == orig[..j0] + data[idx0..idx] + orig[j..]
    ensures buf[j := data[idx]] == orig[..j0] + data[idx0..idx + 1] + orig[j + 1..]
  {
    assert data[idx0..idx + 1] == data[idx0..idx] + [data[idx]];
  }

  /** The count arithmetic of one miniblock of the copy loop: entered at
      offset `o` with `idx` bytes done, left at offset `j` with `idx'` done.
      The bytes stored never pass the clamped total, they are as many as
      fit, and unless the total is reached the loop stands at the
      miniblock's end. */
  lemma CopyCount(address: nat, blockEnd: nat, runStart: nat, start: nat, size: nat,
                  checkSize: nat, o: nat, idx: nat, idx': nat, j: nat)
    requires runStart <= address < blockEnd && start + size <= blockEnd
    requires address - runStart + idx == start - runStart + o
    requires o <= j <= size && idx <= idx' <= checkSize && idx' - idx == j - o
    requires j == size || idx' == checkSize
    ensures idx' <= Min(checkSize, blockEnd - address)
    ensures idx' - idx == Min(Min(checkSize, blockEnd - address) - idx, size - o)
    ensures idx' < checkSize ==> address - runStart + idx' == start + size - runStart
  {
  }

  /** A slice of a prefix is the slice itself. */
  lemma PrefixSlice(data: seq<byte>, n: nat, i: nat, j: nat)
    requires i <= j <= n <= |data|
    ensures data[..n][i..j] == data[i..j]
  {
  }

  /** The corrected inner loop of the copy of `write`, with the stop at
      `limit` that the source's loop lacks (see Findings): bytes of `data`
      from `idx` on go into `buf` from offset `j` on, until the buffer is
      full or `limit` bytes of `data` are used up. */
  method FillBuffer(buf: seq<byte>, j: nat, data: seq<byte>, idx: nat, limit: nat)
    returns (filled: seq<byte>, j': nat, idx': nat)
    requires j <= |buf| && idx <= limit <= |data|
    ensures j <= j' <= |buf| && idx' - idx == j' - j && idx' <= limit
    ensures j' == |buf| || idx' == limit
    ensures filled == buf[..j] + data[idx..idx'] + buf[j'..]
  {
    filled, j', idx' := buf, j, idx;
    BufferStart(buf, j, data, idx);
    while j' < |buf| && idx' < limit
      invariant j <= j' <= |buf| && idx' - idx == j' - j && idx' <= limit
      invariant filled == buf[..j] + data[idx..idx'] + buf[j'..]
    {
      BufferStep(buf, filled, j, j', data, idx, idx');
      filled := filled[j' := data[idx']];
      j', idx' := j' + 1, idx' + 1;
    }
  }

  /** Storing nothing changes nothing. */
  lemma {:induction false} StoreNothing(ms: seq<Miniblock>, off: nat)
    requires ms != [] ==> off <= |ms[0].buffer|
    ensures Store(ms, off, []) == ms
    decreases |ms|
  {
    if ms != [] {
      StoreNothing(ms[1..], 0);
      assert ms[0].buffer[..off] + [] + ms[0].buffer[off..] == ms[0].buffer;
    }
  }

  /** When the copy loop stops, either `d` is used up or the miniblocks
      are: what is left of the list is kept as it is. */
  lemma StoreDone(whole: seq<Miniblock>, done: seq<Miniblock>, ms: seq<Miniblock>, c: nat, o: nat,
                  d: seq<byte>, idx: nat)
    requires c <= |ms| && idx <= |d|
    requires c < |ms| ==> idx == |d| && o <= |ms[c].buffer|
    requires whole == done + Store(ms[c..], o, d[idx..])
    ensures whole == done + ms[c..]
  {
    if c < |ms| {
      assert d[idx..] == [];
      StoreNothing(ms[c..], o);
    } else {
      assert ms[c..] == [];
    }
  }

  /** `StoreRun` spelled out with its count and offset named. */
  lemma StoreRunIs(b: Block, mi: nat, address: nat, checkSize: nat, data: seq<byte>, n: nat, off: nat)
    requires |data| >= checkSize && b.start <= address < b.End()
    requires mi < |b.minis| && b.minis[mi].start <= address < b.minis[mi].End()
    requires |b.minis[mi].buffer| == b.minis[mi].size
    requires n == Min(checkSize, b.End() - address) && off == address - b.minis[mi].start
    ensures StoreRun(b, mi, address, checkSize, data)
      == b.(minis := b.minis[..mi] + Store(b.minis[mi..], off, data[..n]))
  {
  }

  /** One pass of the corrected copy loop of `write`: miniblock `c` of the
      block takes bytes of `data` from `idx` on, from offset `o` (where
      `address` falls in the first miniblock, 0 in the later ones). */
  method StoreMini(b: Block, mi: nat, address: nat, checkSize: nat, data: seq<byte>, c: nat, idx: nat, ghost o: nat)
    returns (m: Miniblock, idx': nat)
    requires BlockOk(b) && mi <= c < |b.minis| && idx < checkSize <= |data|
    requires b.minis[mi].start <= address < b.minis[mi].End() && address < b.End()
    requires c == mi ==> idx == 0 && o == address - b.minis[mi].start
    requires c > mi ==> o == 0 && address - b.minis[mi].start + idx == b.minis[c - 1].End() - b.minis[mi].start
    ensures o <= |b.minis[c].buffer|
    ensures idx <= idx' <= Min(checkSize, b.End() - address)
    ensures idx' - idx == Min(Min(checkSize, b.End() - address) - idx, |b.minis[c].buffer| - o)
    ensures idx' < checkSize ==> address - b.minis[mi].start + idx' == b.minis[c].End() - b.minis[mi].start
    ensures m == b.minis[c].(buffer := b.minis[c].buffer[..o] + data[idx..idx'] + b.minis[c].buffer[o + (idx' - idx)..])
  {
    var ms := b.minis;
    var mc := ms[c];
    RunFacts(b, mi, c);
    if c > mi {
      RunFacts(b, mi, c - 1);
    }
    var j := if address > mc.start then address - mc.start else 0;
    assert j == o;
    var buf;
    buf, j, idx' := FillBuffer(mc.buffer, j, data, idx, checkSize);
    CopyCount(address, b.End(), ms[mi].start, mc.start, mc.size, checkSize, o, idx, idx', j);
    m := mc.(buffer := buf);
  }

  /** The corrected copy loop of `write`: bytes of `data` go to the buffers
      from `address` on, miniblock after miniblock, until `checkSize` bytes
      are in or the block's miniblocks run out. */
  method StoreFrom(b: Block, mi: nat, address: nat, checkSize: nat, data: seq<byte>) returns (nb: Block)
    requires BlockOk(b) && mi < |b.minis|
    requires b.start <= address < b.End()
    requires b.minis[mi].start <= address < b.minis[mi].End()
    requires checkSize <= |data|
    ensures nb == StoreRun(b, mi, address, checkSize, data)
  {
    var ms := b.minis;
    ghost var n := Min(checkSize, b.End() - address);
    ghost var d := data[..n];
    ghost var off := address - ms[mi].start;
    var newMs := ms[..mi];
    var idx := 0;
    var c := mi;
    ghost var o := off;
    ghost var whole := newMs + Store(ms[c..], o, d[idx..]);
    while idx < checkSize && c < |ms|
      invariant mi <= c <= |ms| && |newMs| == c && idx <= n
      invariant c == mi ==> idx == 0 && o == off
      invariant c > mi ==> o == 0
      invariant c > mi && idx < checkSize ==> off + idx == ms[c - 1].End() - ms[mi].start
      invariant whole == newMs + Store(ms[c..], o, d[idx..])
    {
      ghost var idx0 := idx;
      var m;
      m, idx := StoreMini(b, mi, address, checkSize, data, c, idx, o);
      assert whole == (newMs + [m]) + Store(ms[c + 1..], 0, d[idx..]) by {
        PrefixSlice(data, n, idx0, idx);
        StoreStep(newMs, ms, c, o, d, idx0, idx, m);
      }
      newMs := newMs + [m];
      c, o := c + 1, 0;
    }
    StoreFromExit(b, mi, address, checkSize, data, n, off, d, whole, newMs, c, o, idx);
    nb := b.(minis := newMs + ms[c..]);
  }

  /** What the corrected copy loop of `write` has built when it stops. */
  lemma StoreFromExit(b: Block, mi: nat, address: nat, checkSize: nat, data: seq<byte>, n: nat, off: nat,
                      d: seq<byte>, whole: seq<Miniblock>, done: seq<Miniblock>, c: nat, o: nat, idx: nat)
    requires BlockOk(b) && mi < |b.minis| && b.start <= address < b.End()
    requires b.minis[mi].start <= address < b.minis[mi].End() && checkSize <= |data|
    requires n == Min(checkSize, b.End() - address) && off == address - b.minis[mi].start && d == data[..n]
    requires whole == b.minis[..mi] + Store(b.minis[mi..], off, d[0..])
    requires mi <= c <= |b.minis| && idx <= n
    requires c == mi ==> o == off
    requires c > mi ==> o == 0
    requires !(idx < checkSize && c < |b.minis|)
    requires whole == done + Store(b.minis[c..], o, d[idx..])
    ensures StoreRun(b, mi, address, checkSize, data) == b.(minis := done + b.minis[c..])
  {
    RunFacts(b, mi, mi);
    if c < |b.minis| {
      RunFacts(b, mi, c);
    }
    assert d[0..] == d;
    StoreDone(whole, done, b.minis, c, o, d, idx);
    StoreRunIs(b, mi, address, checkSize, data, n, off);
  }

  /** `read`: find the block and the miniblock holding `address`, walk to
      the end of the block summing sizes and checking the read bit, then
      copy bytes out from `address` on until `check_size` bytes are out or
      the miniblocks run out. */
  method ReadBlocks(blocks: seq<Block>, address: nat, size: nat) returns (r: ReadResult)
    requires WellFormed(blocks)
    ensures r == Access.Read(blocks, address, size)
  {
    ReadFailures(blocks, address, size);
    var bi := LocateBlock(blocks, address);
    if bi == |blocks| {
      return ReadBadAddress;
    }
    r := ReadInBlock(blocks, bi, address, size);
  }

  /** `read` once the block holding `address` is found: find the miniblock
      holding it, then walk and copy. */
  method ReadInBlock(blocks: seq<Block>, bi: nat, address: nat, size: nat) returns (r: ReadResult)
    requires WellFormed(blocks) && bi == FindBlock(blocks, address) && bi < |blocks|
    ensures r == Access.Read(blocks, address, size)
  {
    ReadFailures(blocks, address, size);
    var b := blocks[bi];
    var ms := b.minis;
    var mi := LocateMini(ms, address);
    if mi == |ms| {
      return ReadBadAddress;
    }
    var ok, out, warned := ReadRun(b, mi, address, size);
    if !ok {
      return ReadBadPerm;
    }
    ReadIs(blocks, address, size, bi, mi, address - b.minis[mi].start, Min(size, b.End() - address), out, warned);
    r := ReadOk(out, warned);
  }

  /** The part of `read` after the miniblock holding `address` is found:
      the read-bit walk summing sizes, then the copy of `check_size` bytes. */
  method ReadRun(b: Block, mi: nat, address: nat, size: nat) returns (ok: bool, out: seq<byte>, warned: bool)
    requires BlockOk(b) && mi < |b.minis|
    requires b.minis[mi].start <= address < b.minis[mi].End() && address < b.End()
    ensures ok == AllReadable(b.minis[mi..])
    ensures ok ==> address - b.minis[mi].start + Min(size, b.End() - address) <= |Flat(b.minis[mi..])|
    ensures ok ==> out == Flat(b.minis[mi..])[address - b.minis[mi].start ..
                                               address - b.minis[mi].start + Min(size, b.End() - address)]
    ensures ok ==> warned == (SumSizes(b.minis[mi..]) < size)
  {
    var ms := b.minis;
    var checkSize;
    ok, checkSize := ReadableWalk(ms, mi);
    if !ok {
      return ok, [], false;
    }
    warned := checkSize < size;
    if !warned {
      checkSize := size;
    }
    RunFacts(b, mi, mi);
    out := CopyOut(b, mi, address, checkSize);
    TailSize(b, mi);
    assert |out| == Min(size, b.End() - address);
  }

  /** `alloc_block`: the two range checks, the "add first" case, the scan
      for the insertion point, then one of the cases around it. */
  method AllocInto(blocks: seq<Block>, arenaSize: nat, address: nat, size: nat)
    returns (nb: seq<Block>, status: AllocStatus)
    ensures (nb, status) == Alloc(blocks, arenaSize, address, size)
  {
    nb := blocks;
    if address >= arenaSize {
      return blocks, OutsideArena;
    }
    if address + size > arenaSize {
      return blocks, EndPastArena;
    }
    var m := NewMini(address, size);
    if |blocks| == 0 || address + size < blocks[0].start {
      nb := InsertAt(blocks, 0, NewBlock(address, size));
    } else {
      var j := LocateInsertion(blocks, address);
      if j == 0 {
        var b := blocks[0];
        if address + size > b.start {
          return blocks, AlreadyAllocated;
        }
        nb := blocks[0 := b.(start := address, size := b.size + size, minis := InsertAt(b.minis, 0, m))];
      } else if j == |blocks| {
        var b := blocks[j - 1];
        if b.End() > address {
          return blocks, AlreadyAllocated;
        }
        if b.End() == address {
          nb := blocks[j - 1 := b.(size := b.size + size, minis := InsertAt(b.minis, |b.minis| + 1, m))];
        } else {
          nb := InsertAt(blocks, |blocks| + 1, NewBlock(address, size));
        }
      } else {
        var b, bn := blocks[j - 1], blocks[j];
        if b.End() > address || address + size > bn.start {
          return blocks, AlreadyAllocated;
        }
        if b.End() == address && address + size == bn.start {
          var merged := b.(size := b.size + size + bn.size, minis := InsertAt(b.minis, |b.minis| + 1, m) + bn.minis);
          nb := RemoveAt(blocks[j - 1 := merged], j);
        } else if b.End() == address {
          nb := blocks[j - 1 := b.(size := b.size + size, minis := InsertAt(b.minis, |b.minis| + 1, m))];
        } else if address + size == bn.start {
          nb := blocks[j := bn.(start := address, size := bn.size + size, minis := InsertAt(bn.minis, 0, m))];
        } else {
          nb := InsertAt(blocks, j, NewBlock(address, size));
        }
      }
    }
    status := Allocated;
  }


  /** `free_block`: find the block whose closed range holds `address`; a
      miniblock at the block's start leaves from the front, otherwise the
      scan for the miniblock starting at `address` decides between the
      last one and an inner one, which splits the block. */
  method FreeFrom(blocks: seq<Block>, address: nat) returns (nb: seq<Block>, status: FreeStatus)
    requires WellFormed(blocks)
    ensures (nb, status) == Free(blocks, address)
  {
    var idx := LocateContaining(blocks, address);
    if idx == |blocks| {
      return blocks, InvalidFree;
    }
    var b := blocks[idx];
    var ms := b.minis;
    if b.start == address {
      TilesBounds(ms, b.start, b.End(), 0);
      var first := ms[0];
      var rest := RemoveAt(ms, 0);
      if rest == [] {
        nb := RemoveAt(blocks, idx);
      } else {
        nb := blocks[idx := Block(b.start + first.size, b.size - first.size, rest)];
      }
      assert nb == FreeFirst(blocks, idx);
      FreeAtStart(blocks, address, idx);
      status := Freed;
    } else {
      nb, status := FreeLater(blocks, address, idx);
    }
  }

  /** The part of `free_block` after the block scan, when `address` is not
      the block's start: the miniblock scan, then the last or an inner
      miniblock removed. */
  method FreeLater(blocks: seq<Block>, address: nat, idx: nat) returns (nb: seq<Block>, status: FreeStatus)
    requires WellFormed(blocks)
    requires idx == FindContaining(blocks, address) < |blocks| && blocks[idx].start != address
    ensures (nb, status) == Free(blocks, address)
  {
    var b := blocks[idx];
    var ms := b.minis;
    var k, leftSize := LocateFreed(ms, address);
    FreeByCase(blocks, address, idx, k);
    if k == |ms| {
      return blocks, InvalidFree;
    }
    TilesBounds(ms, b.start, b.End(), k);
    if k == |ms| - 1 {
      nb := blocks[idx := b.(size := b.size - ms[k].size, minis := RemoveAt(ms, k))];
      assert nb == FreeLast(blocks, idx);
    } else {
      TilesStart(ms, b.start, b.End(), k);
      var rest := RemoveAt(ms, k);
      var rightSize := b.size - leftSize - ms[k].size;
      var left := b.(size := leftSize, minis := rest[..k]);
      var right := Block(ms[k + 1].start, rightSize, rest[k..]);
      nb := InsertAt(blocks[idx := left], idx + 1, right);
      assert nb == FreeInner(blocks, idx, k);
    }
    status := Freed;
  }

  /** `Free` at the start of the block holding `address`: its first
      miniblock goes. */
  lemma FreeAtStart(blocks: seq<Block>, address: nat, idx: nat)
    requires WellFormed(blocks)
    requires idx == FindContaining(blocks, address) < |blocks| && blocks[idx].start == address
    ensures Free(blocks, address) == (FreeFirst(blocks, idx), Freed)
  {
  }

  /** `Free` inside the block holding `address`, once the miniblock scan has
      stopped at `k`: nothing starts there, or the last or an inner
      miniblock goes. */
  lemma FreeByCase(blocks: seq<Block>, address: nat, idx: nat, k: nat)
    requires WellFormed(blocks)
    requires idx == FindContaining(blocks, address) < |blocks| && blocks[idx].start != address
    requires k == FindStart(blocks[idx].minis, address)
    ensures k == |blocks[idx].minis| ==> Free(blocks, address) == (blocks, InvalidFree)
    ensures k == |blocks[idx].minis| - 1 ==> Free(blocks, address) == (FreeLast(blocks, idx), Freed)
    ensures k < |blocks[idx].minis| - 1 ==> 0 < k && Free(blocks, address) == (FreeInner(blocks, idx, k), Freed)
  {
    if k < |blocks[idx].minis| - 1 {
      var b := blocks[idx];
      TilesBounds(b.minis, b.start, b.End(), 0);
    }
  }

  /** Two transfer sizes that clamp to the same count at the end of the
      block store the same bytes. */
  lemma StoreRunClamped(b: Block, mi: nat, address: nat, s1: nat, s2: nat, data: seq<byte>)
    requires |data| >= s1 && |data| >= s2 && b.start <= address < b.End()
    requires mi < |b.minis| && b.minis[mi].start <= address < b.minis[mi].End()
    requires |b.minis[mi].buffer| == b.minis[mi].size
    requires Min(s1, b.End() - address) == Min(s2, b.End() - address)
    ensures StoreRun(b, mi, address, s1, data) == StoreRun(b, mi, address, s2, data)
  {
  }

  /** A write at an address held by block `bi` and its miniblock `mi`,
      with the write bit set from there on, stores into that block. */
  lemma WriteAt(blocks: seq<Block>, address: nat, size: nat, data: seq<byte>, bi: nat, mi: nat)
    requires WellFormed(blocks) && |data| >= size
    requires bi == FindBlock(blocks, address) && bi < |blocks|
    requires mi == FindMini(blocks[bi].minis, address) && mi < |blocks[bi].minis|
    requires AllWritable(blocks[bi].minis[mi..])
    ensures Access.Write(blocks, address, size, data)
      == (blocks[bi := StoreRun(blocks[bi], mi, address, size, data)],
          Written(SumSizes(blocks[bi].minis[mi..]) < size))
  {
  }

  /** `write`: find the block and the miniblock holding `address`, walk to
      the end of the block summing sizes and checking the write bit, then
      store `check_size` bytes of `data` from `address` on. */
  method WriteBlocks(blocks: seq<Block>, address: nat, size: nat, data: seq<byte>)
    returns (nb: seq<Block>, status: WriteStatus)
    requires WellFormed(blocks) && |data| >= size
    ensures (nb, status) == Access.Write(blocks, address, size, data)
  {
    var bi := LocateBlock(blocks, address);
    if bi == |blocks| {
      return blocks, WriteBadAddress;
    }
    var b := blocks[bi];
    var ms := b.minis;
    var mi := LocateMini(ms, address);
    if mi == |ms| {
      return blocks, WriteBadAddress;
    }
    var ok, checkSize := WritableWalk(ms, mi);
    if !ok {
      return blocks, WriteBadPerm;
    }
    var warned := checkSize < size;
    if !warned {
      checkSize := size;
    }
    RunFacts(b, mi, mi);
    TailSize(b, mi);
    var stored := StoreFrom(b, mi, address, checkSize, data);
    StoreRunClamped(b, mi, address, checkSize, size, data);
    WriteAt(blocks, address, size, data, bi, mi);
    return blocks[bi := stored], Written(warned);
  }


  class Arena {
    /** `arena_size`. */
    var arenaSize: nat
    /** `block_list`, block payloads in list order. */
    var blocks: seq<Block>

    ghost predicate Valid()
      reads this
    {
      Regions.Valid(blocks, arenaSize)
    }

    /** `alloc_arena`: the given size and an empty block list. */
    constructor (size: nat)
      ensures arenaSize == size && blocks == []
      ensures Valid()
    {
      arenaSize := size;
      blocks := [];
    }

    /** `alloc_block`, on the arena's block list. */
    method AllocBlock(address: nat, size: nat) returns (status: AllocStatus)
      requires address + size < U64
      modifies this
      ensures arenaSize == old(arenaSize)
      ensures (blocks, status) == Alloc(old(blocks), arenaSize, address, size)
      ensures old(Valid()) && size > 0 ==> Valid()
    {
      ghost var before := blocks;
      blocks, status := AllocInto(blocks, arenaSize, address, size);
      if Regions.Valid(before, arenaSize) && size > 0 && status == Allocated {
        AllocPreservesValid(before, arenaSize, address, size);
      }
    }

    /** `free_block`, on the arena's block list. */
    method FreeBlock(address: nat) returns (status: FreeStatus)
      requires Valid()
      modifies this
      ensures arenaSize == old(arenaSize)
      ensures (blocks, status) == Free(old(blocks), address)
      ensures Valid()
    {
      ghost var before := blocks;
      blocks, status := FreeFrom(blocks, address);
      if status == Freed {
        FreePreservesValid(before, arenaSize, address);
      }
    }

    /** `read`, on the arena's block list. */
    method Read(address: nat, size: nat) returns (r: ReadResult)
      requires Valid()
      ensures r == Access.Read(blocks, address, size)
    {
      r := ReadBlocks(blocks, address, size);
    }

    /** `write`, on the arena's block list. */
    method Write(address: nat, size: nat, data: seq<byte>) returns (status: WriteStatus)
      requires Valid() && |data| >= size
      modifies this
      ensures arenaSize == old(arenaSize)
      ensures (blocks, status) == Access.Write(old(blocks), address, size, data)
      ensures Valid()
    {
      ghost var before := blocks;
      blocks, status := WriteBlocks(blocks, address, size, data);
      WritePreservesValid(before, arenaSize, address, size, data);
    }

    /** `mprotect`: find the block holding `address`, then the miniblock
        starting there, and give it mask `mask`. */
    method Mprotect(address: nat, mask: byte) returns (status: ProtectStatus)
      requires Valid()
      modifies this
      ensures arenaSize == old(arenaSize)
      ensures (blocks, status) == Protect(old(blocks), address, mask)
      ensures Valid()
    {
      ghost var before := blocks;
      var bi := LocateBlock(blocks, address);
      if bi == |blocks| {
        return InvalidProtect;
      }
      var ms := blocks[bi].minis;
      var k := LocateStart(ms, address);
      if k == |ms| {
        return InvalidProtect;
      }
      blocks := blocks[bi := blocks[bi].(minis := ms[k := ms[k].(perm := mask)])];
      status := Protected;
      ProtectPreservesValid(before, arenaSize, address, mask);
    }
  }
}
