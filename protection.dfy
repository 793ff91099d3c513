/** `mprotect` (vma.c:631-667) and `perm` (vma.c:540-574): changing the mask
    of the miniblock that starts at an address, and showing a mask as text. */
module Protection {
  import opened Regions
  import opened Access
  import opened Deallocation

  /** What `mprotect` reports. */
  datatype ProtectStatus =
    | Protected
    | InvalidProtect  // "Invalid address for mprotect."

  /** `mprotect`: the block whose half-open range holds `address`, then its
      first miniblock starting exactly there, gets mask `mask`. */
  function Protect(blocks: seq<Block>, address: nat, mask: byte): (r: (seq<Block>, ProtectStatus))
    ensures r.1 == InvalidProtect ==> r.0 == blocks
    ensures |r.0| == |blocks|
  {
    var bi := FindBlock(blocks, address);
    if bi == |blocks| then (blocks, InvalidProtect)
    else
      var ms := blocks[bi].minis;
      var k := FindStart(ms, address);
      if k == |ms| then (blocks, InvalidProtect)
      else (blocks[bi := blocks[bi].(minis := ms[k := ms[k].(perm := mask)])], Protected)
  }

  /** Some miniblock of the arena starts at `address`. */
  predicate StartsMini(blocks: seq<Block>, address: nat)
  {
    exists i, k :: 0 <= i < |blocks| && 0 <= k < |blocks[i].minis| && blocks[i].minis[k].start == address
  }

  /** The block holding a miniblock's start is the one the half-open scan
      stops at. */
  lemma MiniStartFound(blocks: seq<Block>, i: nat, k: nat)
    requires WellFormed(blocks) && i < |blocks| && k < |blocks[i].minis|
    ensures FindBlock(blocks, blocks[i].minis[k].start) == i
    ensures FindStart(blocks[i].minis, blocks[i].minis[k].start) <= k
  {
    var b := blocks[i];
    TilesBounds(b.minis, b.start, b.End(), k);
    FindBlockAt(blocks, i, b.minis[k].start);
  }

  /** `mprotect` succeeds exactly when some miniblock starts at `address`. */
  lemma ProtectOutcome(blocks: seq<Block>, address: nat, mask: byte)
    requires WellFormed(blocks)
    ensures Protect(blocks, address, mask).1 == Protected <==> StartsMini(blocks, address)
  {
    if StartsMini(blocks, address) {
      var i, k :| 0 <= i < |blocks| && 0 <= k < |blocks[i].minis| && blocks[i].minis[k].start == address;
      MiniStartFound(blocks, i, k);
    }
  }

  /** Two miniblocks of a well-formed arena that start at the same address
      are the same one. */
  lemma StartsUnique(blocks: seq<Block>, i: nat, k: nat, i': nat, k': nat)
    requires WellFormed(blocks)
    requires i < |blocks| && k < |blocks[i].minis| && i' < |blocks| && k' < |blocks[i'].minis|
    requires blocks[i].minis[k].start == blocks[i'].minis[k'].start
    ensures i == i' && k == k'
  {
    MiniStartFound(blocks, i, k);
    MiniStartFound(blocks, i', k');
    var ms := blocks[i].minis;
    if k < k' {
      TilesOrdered(ms, blocks[i].start, blocks[i].End(), k, k');
    } else if k' < k {
      TilesOrdered(ms, blocks[i].start, blocks[i].End(), k', k);
    }
  }

  /** A successful `mprotect` gives mask `mask` to the one miniblock that
      starts at `address` and changes nothing else: every block keeps its
      range and its miniblocks, every other miniblock stays as it was. */
  lemma ProtectEffect(blocks: seq<Block>, address: nat, mask: byte)
    requires WellFormed(blocks)
    requires Protect(blocks, address, mask).1 == Protected
    ensures var r := Protect(blocks, address, mask).0;
      forall i :: 0 <= i < |blocks| ==>
        && r[i].start == blocks[i].start && r[i].size == blocks[i].size
        && |r[i].minis| == |blocks[i].minis|
        && forall k :: 0 <= k < |blocks[i].minis| ==>
             r[i].minis[k] == if blocks[i].minis[k].start == address
                              then blocks[i].minis[k].(perm := mask)
                              else blocks[i].minis[k]
  {
    var r := Protect(blocks, address, mask).0;
    var bi := FindBlock(blocks, address);
    var kk := FindStart(blocks[bi].minis, address);
    forall i, k | 0 <= i < |blocks| && 0 <= k < |blocks[i].minis| && blocks[i].minis[k].start == address
      ensures i == bi && k == kk
    {
      StartsUnique(blocks, i, k, bi, kk);
    }
  }

  /** `mprotect` keeps the arena invariant. */
  lemma ProtectPreservesValid(blocks: seq<Block>, arenaSize: nat, address: nat, mask: byte)
    requires Valid(blocks, arenaSize)
    ensures Valid(Protect(blocks, address, mask).0, arenaSize)
  {
    if Protect(blocks, address, mask).1 == Protected {
      var bi := FindBlock(blocks, address);
      var b := blocks[bi];
      var k := FindStart(b.minis, address);
      var nb := b.(minis := b.minis[k := b.minis[k].(perm := mask)]);
      assert Protect(blocks, address, mask).0 == blocks[bi := nb];
      MaskKeepsTiles(b.minis, b.start, b.End(), k, mask);
      ValidUpdate(blocks, arenaSize, bi, nb);
    }
  }

  /** A new mask on one miniblock leaves the tiling as it was. */
  lemma MaskKeepsTiles(ms: seq<Miniblock>, lo: nat, hi: nat, k: nat, mask: byte)
    requires Tiles(ms, lo, hi) && k < |ms|
    ensures Tiles(ms[k := ms[k].(perm := mask)], lo, hi)
  {
    var r := ms[k := ms[k].(perm := mask)];
    assert forall i :: 0 <= i < |ms| ==> r[i].start == ms[i].start && r[i].End() == ms[i].End();
    assert forall i :: 0 <= i < |ms| ==> MiniOk(r[i]) by {
      forall i | 0 <= i < |ms| ensures MiniOk(r[i]) {
        assert MiniOk(ms[i]);
      }
    }
  }

  /** Taking the write bit away at a miniblock's start makes every later
      write at that address fail on permissions, with nothing stored. */
  lemma ProtectBlocksWrite(blocks: seq<Block>, address: nat, mask: byte, size: nat, data: seq<byte>)
    requires WellFormed(blocks) && |data| >= size && !CanWrite(mask)
    requires Protect(blocks, address, mask).1 == Protected
    ensures WellFormed(Protect(blocks, address, mask).0)
    ensures Write(Protect(blocks, address, mask).0, address, size, data)
      == (Protect(blocks, address, mask).0, WriteBadPerm)
  {
    var r := Protect(blocks, address, mask).0;
    var bi, k := ProtectedStart(blocks, address, mask);
    assert !CanWrite(r[bi].minis[k].perm);
    WriteOutcome(r, address, size, data);
  }

  /** Taking the read bit away at a miniblock's start makes every later read
      at that address fail on permissions. */
  lemma ProtectBlocksRead(blocks: seq<Block>, address: nat, mask: byte, size: nat)
    requires WellFormed(blocks) && !CanRead(mask)
    requires Protect(blocks, address, mask).1 == Protected
    ensures WellFormed(Protect(blocks, address, mask).0)
    ensures Read(Protect(blocks, address, mask).0, address, size) == ReadBadPerm
  {
    var r := Protect(blocks, address, mask).0;
    var bi, k := ProtectedStart(blocks, address, mask);
    assert !CanRead(r[bi].minis[k].perm);
    ReadOutcome(r, address, size);
  }

  /** After a successful `mprotect` the arena is still well formed, and the
      block holding `address` has a miniblock, carrying the new mask, that
      ends after `address`. */
  lemma ProtectedStart(blocks: seq<Block>, address: nat, mask: byte) returns (bi: nat, k: nat)
    requires WellFormed(blocks)
    requires Protect(blocks, address, mask).1 == Protected
    ensures WellFormed(Protect(blocks, address, mask).0)
    ensures var r := Protect(blocks, address, mask).0;
      && bi < |r| && r[bi].start <= address < r[bi].End()
      && k < |r[bi].minis| && address < r[bi].minis[k].End()
      && r[bi].minis[k].perm == mask
  {
    ProtectPreservesValid(blocks, LastEnd(blocks), address, mask);
    bi := FindBlock(blocks, address);
    k := FindStart(blocks[bi].minis, address);
    TilesBounds(blocks[bi].minis, blocks[bi].start, blocks[bi].End(), k);
  }

  /** Where the last block ends (0 for none): a well-formed list is valid in
      an arena of that size. */
  function LastEnd(blocks: seq<Block>): (n: nat)
    ensures WellFormed(blocks) ==> Valid(blocks, n)
  {
    if blocks == [] then 0 else blocks[|blocks| - 1].End()
  }

  /** Bit `b` of a mask (`b` = 1 execute, 2 write, 4 read). */
  predicate HasBit(mask: byte, b: nat)
    requires b == 1 || b == 2 || b == 4
  {
    (mask as int / b) % 2 == 1
  }

  /** `perm`: the three-character form of a mask, read, write and execute in
      that order, a letter where the bit is set and `-` where it is not. */
  function PermString(mask: byte): (s: string)
    requires mask <= 7
    ensures |s| == 3
    ensures s[0] == (if HasBit(mask, 4) then 'R' else '-')
    ensures s[1] == (if HasBit(mask, 2) then 'W' else '-')
    ensures s[2] == (if HasBit(mask, 1) then 'X' else '-')
  {
    if mask == 0 then "---"
    else if mask == 1 then "--X"
    else if mask == 2 then "-W-"
    else if mask == 3 then "-WX"
    else if mask == 4 then "R--"
    else if mask == 5 then "R-X"
    else if mask == 6 then "RW-"
    else "RWX"
  }

  /** The tests `read` and `write` apply to a mask are its read and write
      bits, as `perm` shows them. */
  lemma AccessTestsAreBits(mask: byte)
    requires mask <= 7
    ensures CanRead(mask) <==> PermString(mask)[0] == 'R'
    ensures CanWrite(mask) <==> PermString(mask)[1] == 'W'
  {
  }

  /** Different masks show differently. */
  lemma PermStringInjective(m1: byte, m2: byte)
    requires m1 <= 7 && m2 <= 7 && PermString(m1) == PermString(m2)
    ensures m1 == m2
  {
    assert PermString(m1)[0] == PermString(m2)[0];
    assert PermString(m1)[1] == PermString(m2)[1];
    assert PermString(m1)[2] == PermString(m2)[2];
  }
}
