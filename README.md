# VirtualMemoryAllocator in Dafny

A model of the virtual memory allocator: an arena of `arena_size` addresses
holding a sorted list of blocks, each block a run of miniblocks that tile it
without gaps. Every miniblock carries a permission mask (read 4, write 2,
execute 1, default 6) and a byte buffer. The model covers the arena
operations of `vma.c`, the generic doubly linked list of `listop.c` that
holds both lists, and the permission-line parser of `main.c`.

Layout, one module per file:

- `list.dfy`, module `DoublyLinkedList`: `list_t` as the class `DList`, whose
  contents are a `seq` that `add_nth_node` and `remove_nth_node` reassign.
  The pure functions `InsertAt` and `RemoveAt` specify them, including the
  clamping of out-of-range positions.
- `regions.dfy`, module `Regions`: `miniblock_t` and `block_t` as datatypes,
  and the arena invariant. Each block is tiled by its miniblocks. Blocks are
  sorted, disjoint and never adjacent, because touching blocks are always
  merged. Everything lies inside the arena.
- `allocation.dfy`, `deallocation.dfy`, `access.dfy`, `protection.dfy`: the
  functions that state what `alloc_block`, `free_block`, `read`, `write`,
  `mprotect` and `perm` do, with the lemmas about them.
- `engine.dfy`, module `Engine`: the class `Arena` (`arena_t`). Its methods
  run the C functions' scans and copy loops over the block list and are
  proved to leave exactly the state and result that the specifying
  functions describe.
- `permissions.dfy`, module `PermissionParser`: `permission_convert`. It
  models the `strtok` loop over `" |\n"`, the three flags and the mask built
  from them.

The model follows the code where the code and its description differ:

- Short reads and writes. When a read or write asks for more than the run
  holds, the source sums the sizes from the *start* of the miniblock that
  holds `address`. It then transfers bytes from `address` until that many
  are done or the block's miniblocks run out. So a transfer moves
  `min(size, block end - address)` bytes, not the sum. The warning is given
  exactly when that sum (first miniblock counted whole) is below `size`.
  `Access.Read`, `Access.ReadBytes` and `Access.WriteBytes` state this.
- The block scan of `free_block`. It tests `start <= address <= start + size`
  (end included), unlike the half-open tests elsewhere. This is modelled as
  written. `Deallocation.FreeAtBlockEnd` and `Deallocation.FreeOutcome`
  show it never changes the outcome, because blocks never touch.
- The copy loop of `write`. It does not stop after `size` bytes (see
  Findings). The model's `Access.Write` stores exactly the bytes `read`
  would return. The as-written loop is modelled separately as
  `Access.WriteAsWritten`.

## Model

| member | source | states |
|---|---|---|
| DoublyLinkedList.ClampInsert | listop.c:26-27 | an insertion position past the length becomes the length; others are kept |
| DoublyLinkedList.ClampRemove | listop.c:72-73 | a removal position past the last node becomes the last node; others are kept |
| DoublyLinkedList.InsertAt | listop.c:19-62 | the list grows by one; the new item sits at the clamped position, items before it keep their index, items after it shift by one |
| DoublyLinkedList.RemoveAt | listop.c:65-99 | the list shrinks by one; items before the clamped position keep their index, items after it shift back by one |
| DoublyLinkedList.InsertThenRemove | listop.c:19-99 | removing at the position just inserted at gives back the original list, and the inserted item sat there |
| DoublyLinkedList.InsertPastEndAppends | listop.c:26-27 | inserting at any position at or past the length appends, which `alloc_block` relies on when it passes `num_nodes + 1` |
| DoublyLinkedList.DList.constructor | listop.c:4-16 | a new list is empty and keeps the payload size it was created with |
| DoublyLinkedList.AddNthNode | listop.c:19-62 | on a non-NULL list, after walking to the clamped position, the contents are the old contents with the item inserted there; NULL is left alone |
| DoublyLinkedList.RemoveNthNode | listop.c:65-99 | a NULL or empty list gives NULL; otherwise the node at the clamped position is handed back and the rest keep their order |
| Allocation.NewMini | vma.c:123-124 | a fresh miniblock spans `[address, address + size)`, has mask `DEF_PERM` (6) and a buffer of `size` bytes |
| Allocation.FirstAtOrAfter | vma.c:91-100 | the insertion scan stops at the first block not starting below `address`; every block before it starts below |
| Allocation.Alloc | vma.c:48-283 | every rejected allocation leaves the block list unchanged |
| Allocation.AllocBeforeFirst | vma.c:109-129 | the front case: an overlap with the first block is rejected with nothing changed |
| Allocation.AllocAfterLast | vma.c:132-171 | the last case: an overlap with the last block is rejected with nothing changed |
| Allocation.AllocBetween | vma.c:173-283 | the middle case: an overlap with either neighbour is rejected with nothing changed |
| Allocation.AllocShape | vma.c:91-283 | every success lies inside the arena and between its two neighbours; the result is the blocks before, one block merging the touching neighbours with the new miniblock, and the blocks after |
| Allocation.AllocFits | vma.c:91-283 | a success fits between the neighbours at the insertion point, and the result has the merged shape |
| Allocation.AllocPreservesValid | vma.c:48-283 | a successful allocation of a non-empty range keeps the arena invariant (tiled, sorted, non-adjacent blocks inside the arena) |
| Allocation.AllocInsertsMini | vma.c:48-283 | a success adds exactly the new miniblock to the arena's miniblocks, in address order, and changes no other miniblock |
| Allocation.AllocBlockCount | vma.c:187-283 | the number of blocks grows by one, stays the same when the range touches one neighbour, and drops by one when it touches both |
| Allocation.RejectWitness | vma.c:109-181 | an "already allocated" answer means the range starts inside the arena, ends within it, and some block really shares a byte with it |
| Allocation.AllocOutcome | vma.c:48-283 | for every size, including 0: out-of-arena start, end past the arena, overlap with an existing block and success each happen exactly under their condition (the last two only when the range starts inside the arena and ends within it); every failure leaves the blocks unchanged |
| Allocation.ZeroSizeBreaksValid | vma.c:48-171 | as written, `ALLOC_BLOCK 0 5`, `ALLOC_BLOCK 5 0`, `ALLOC_BLOCK 5 5` in an arena of 20 all succeed and leave one block `[0, 10)` holding an empty miniblock `[5, 5)`, outside the arena invariant |
| Deallocation.FindContaining | vma.c:309-317 | the block scan of `free_block` stops at the first block with `start <= address <= end` (end included) |
| Deallocation.FindStart | vma.c:336-347 | the miniblock scan stops at the first miniblock starting at `address` |
| Deallocation.Free | vma.c:304-383 | an invalid free leaves the block list unchanged |
| Deallocation.FreeShape | vma.c:318-376 | a success removes the first miniblock starting at `address` from its block; the block is replaced by the runs before and after that miniblock, each as a block of its own when not empty |
| Deallocation.FreePreservesValid | vma.c:304-383 | a successful free keeps the arena invariant |
| Deallocation.FreeRemovesMini | vma.c:304-383 | a success removes exactly one miniblock from the arena, one starting at `address`, and keeps the others in order |
| Deallocation.FreeOutcome | vma.c:304-383 | a free succeeds exactly when some miniblock starts at `address` |
| Deallocation.FreeAtBlockEnd | vma.c:311-312 | freeing the address one past a block's end, which the inclusive scan accepts as that block, is an invalid free |
| Deallocation.FreeBlockCount | vma.c:323-376 | freeing a block's only miniblock removes the block; freeing an inner one splits it (one block more); freeing the first or last of several keeps the count |
| Access.FindBlock | vma.c:390-398 | the block scan stops at the first block whose half-open range holds `address`; none before it holds it |
| Access.FindMini | vma.c:401-411 | the miniblock scan stops at the first miniblock whose half-open range holds `address` |
| Access.CountIsMin | vma.c:428-434 | both branches of the size clamp move `min(size, bytes from the offset to the run end)` bytes |
| Access.StoreFlat | vma.c:516-529 | storing `d` from offset `off` of a run overwrites exactly those bytes of the run's contents |
| Access.Write | vma.c:464-536 | a failed write leaves every block as it was; the block count never changes |
| Access.ReadOutcome | vma.c:385-462 | "invalid address" exactly when no block holds `address`; "invalid permissions" exactly when a block holds it and one of its miniblocks ending after `address` lacks the read bit |
| Access.ReadBytes | vma.c:412-455 | a successful read returns `min(size, block end - address)` bytes, each the byte stored at its address; the warning is given exactly when the run from the holding miniblock's start is shorter than `size` |
| Access.RunIsTail | vma.c:413-427 | the run the permission walk visits is exactly the block's miniblocks that end after `address` |
| Access.ReadableRun | vma.c:413-427 | the read walk passes exactly when every miniblock of the block ending after `address` has the read bit |
| Access.WritableRun | vma.c:493-507 | the write walk passes exactly when every miniblock of the block ending after `address` has the write bit |
| Access.WriteOutcome | vma.c:464-536 | "invalid address" exactly when no block holds `address`; "invalid permissions" exactly when a miniblock of the holding block ending after `address` lacks the write bit |
| Access.WriteBytes | vma.c:492-529 | after a successful write, the `min(size, block end - address)` addresses from `address` hold the first bytes of `data`; every other address holds what it held; the warning is as for `read` |
| Access.WriteLayout | vma.c:516-529 | a write changes buffer contents only: blocks, miniblocks, ranges and masks stay as they were |
| Access.WritePreservesValid | vma.c:464-536 | a write keeps the arena invariant |
| Access.WriteThenRead | vma.c:385-536 | reading back right after a successful write at the same address and size gives the bytes written and the same warning, whenever the region is readable |
| Access.StoreLoop | vma.c:518-529 | the as-written copy loop keeps the number of miniblocks whenever it completes |
| Access.WriteAsWritten | vma.c:464-536 | the as-written `write` leaves the blocks unchanged whenever it reports a failure |
| Access.WriteAsWrittenOverruns | vma.c:518-527 | as written, `WRITE 0 3` into a fresh 10-byte block copies all ten bytes of the caller's buffer, while `Access.Write` changes only three |
| Access.WriteAsWrittenCrashes | vma.c:518-520 | as written, `WRITE 5 10` into that block runs off the end of the miniblock list, while `Access.Write` stores the five bytes that fit |
| Protection.Protect | vma.c:631-667 | a failed `mprotect` changes nothing; the block count never changes |
| Protection.ProtectOutcome | vma.c:631-667 | `mprotect` succeeds exactly when some miniblock starts at `address` |
| Protection.ProtectEffect | vma.c:651-662 | a success gives the new mask to the one miniblock starting at `address`; every block keeps its range and miniblocks, and every other miniblock is unchanged |
| Protection.ProtectPreservesValid | vma.c:631-667 | `mprotect` keeps the arena invariant |
| Protection.ProtectBlocksWrite | vma.c:497-507 | after the write bit is taken away at a miniblock's start, a write at that address fails on permissions and stores nothing |
| Protection.ProtectBlocksRead | vma.c:417-425 | after the read bit is taken away at a miniblock's start, a read at that address fails on permissions |
| Protection.PermString | vma.c:540-574 | the three characters show the read, write and execute bits, in that order, as a letter when set and `-` when not |
| Protection.AccessTestsAreBits | vma.c:540-574 | the tests `read` (`perm >= 4`) and `write` (2, 3, 6 or 7) apply to a mask are exactly its `R` and `W` as `perm` shows them |
| Protection.PermStringInjective | vma.c:547-572 | different masks up to 7 are shown differently |
| PermissionParser.FoldFlags | main.c:12-22 | each flag is set exactly when its name occurs after the last `PROT_NONE` |
| PermissionParser.ConvertBits | main.c:7-32 | the mask is 4 for read, 2 for write and 1 for execute, for the names effective after the last `PROT_NONE`, and never above 7 |
| PermissionParser.UnrecognisedIsZero | main.c:12-31 | a line with none of the four names gives mask 0 |
| PermissionParser.NoneLastIsZero | main.c:13-14 | a `PROT_NONE` as the last token clears every flag |
| PermissionParser.TokensClean | main.c:10-21 | every token `strtok` hands out is non-empty and holds no separator |
| PermissionParser.TokensOfLine | main.c:10-21 | a line of names joined by ` \| `, after a space and before a newline, splits back into exactly those names |
| PermissionParser.PermissionConvert | main.c:7-32 | the character-by-character `strtok` loop returns the mask `Convert` specifies, never above 7 |
| Engine.LocateBlock | vma.c:390-398 | the block scan loop returns the first block holding `address` |
| Engine.LocateMini | vma.c:401-411 | the miniblock scan loop returns the first miniblock holding `address` |
| Engine.LocateStart | vma.c:651-662 | the `mprotect` scan loop returns the first miniblock starting at `address` |
| Engine.ReadableWalk | vma.c:413-427 | the permission walk of `read` passes exactly when every miniblock to the block end has the read bit, and then returns their total size |
| Engine.WritableWalk | vma.c:493-507 | the permission walk of `write` passes exactly when every miniblock to the block end has the write bit, and then returns their total size |
| Engine.CopyOut | vma.c:436-455 | the copy loop of `read` hands out `min(checkSize, block end - address)` bytes: the contents of the run from `address` on |
| Engine.CopyMini | vma.c:440-453 | one pass of the copy loop extends the output with the bytes of one miniblock, stopping at `checkSize` or at the miniblock's end |
| Engine.LocateInsertion | vma.c:91-100 | the insertion scan loop of `alloc_block` returns the first block not starting below `address` |
| Engine.LocateContaining | vma.c:306-317 | the block scan loop of `free_block` returns the first block whose closed range holds `address` |
| Engine.LocateFreed | vma.c:336-347 | the miniblock scan of `free_block` returns the first miniblock starting at `address` and the total size of those before it (`left_size`) |
| Engine.FillBuffer | vma.c:524-527 | the corrected inner copy loop of `write`, with the `idx < check_size` stop the source lacks (see Findings, vma.c:518-527): it overwrites a buffer from offset `j` with bytes of `data` until the buffer is full or the limit is reached, and changes nothing else |
| Engine.StoreMini | vma.c:519-528 | one pass of the corrected copy loop stores as many bytes as fit in one miniblock, up to the clamped total |
| Engine.StoreFrom | vma.c:516-529 | the corrected copy loop of `write` leaves the block that `Access.StoreRun` specifies |
| Engine.ReadBlocks | vma.c:385-462 | the scans, the walk and the copy loop of `read` give exactly `Access.Read` |
| Engine.ReadInBlock | vma.c:399-461 | `read` after the block scan gives exactly `Access.Read` |
| Engine.ReadRun | vma.c:412-455 | the walk and the copy after the miniblock scan: permission verdict, bytes and warning as `Access.Read` has them |
| Engine.AllocInto | vma.c:48-283 | the range checks, the insertion scan and the four cases of `alloc_block` give exactly `Allocation.Alloc` |
| Engine.FreeFrom | vma.c:304-383 | the scans and the three cases of `free_block` give exactly `Deallocation.Free` |
| Engine.FreeLater | vma.c:336-379 | `free_block` for an address that is not the block's start gives exactly `Deallocation.Free` |
| Engine.WriteBlocks | vma.c:464-536 | the scans, the walk and the corrected copy loop of `write` give exactly `Access.Write` |
| Engine.Arena.constructor | vma.c:3-7 | `alloc_arena`: the given size, an empty block list, and the invariant holds |
| Engine.Arena.AllocBlock | vma.c:48-283 | the block list and status are those of `Allocation.Alloc`; the invariant is kept when `size > 0` |
| Engine.Arena.FreeBlock | vma.c:304-383 | the block list and status are those of `Deallocation.Free`, and the invariant is kept |
| Engine.Arena.Read | vma.c:385-462 | the result is that of `Access.Read` on the current blocks |
| Engine.Arena.Write | vma.c:464-536 | the block list and status are those of `Access.Write`, and the invariant is kept |
| Engine.Arena.Mprotect | vma.c:631-667 | the block list and status are those of `Protection.Protect`, and the invariant is kept |

## Left out

- Printed output. The `printf` messages of every operation become status values or `ReadResult` cases. The character count printed with the size warning is not modelled; only whether the warning is given.
- `dealloc_arena`, `free_m_node` and `free_b_node` only release memory. A value model has nothing to release.
- `pmap` only prints the map. The facts it shows (blocks, miniblock ranges, masks as `perm` spells them) are the model's state.
- The command loop of `main` is not modelled. This covers reading commands with `fscanf`, the `MAX_TEXT` buffer, and the rule that commands before `ALLOC_ARENA` end the session.
- Exiting when `malloc` fails is not modelled; memory is unbounded.
- Node relinking is not modelled. Doubly linked nodes and their `prev`/`next` pointers become sequences that are reassigned, so aliasing between nodes is not modelled. No two lists share nodes in the source.
- Fresh buffers. A new miniblock's buffer is uninitialised in the source; the model fills it with zeros.
- Engine.Arena.AllocBlock: requires `address + size < 2^64`. It does not model the `uint64_t` wrap-around of `address + size` in the range checks.
- Engine.Arena.AllocBlock: accepts size 0 as the source does, but guarantees the arena invariant only for `size > 0`. A zero-size allocation stores an empty miniblock, which the invariant does not admit (see Findings). After one, `FreeBlock`, `Read`, `Write` and `Mprotect`, which require the invariant, say nothing about later commands; the source then splits a block into touching blocks on a free of the empty miniblock's address.
- Allocation.AllocPreservesValid: requires `size > 0`, for the same reason. It is the corrected half of the zero-size finding.
- Protection.PermString: requires `mask <= 7`. For larger masks the source's `switch` copies nothing and returns uninitialised memory. `permission_convert` never produces such a mask.
- Access.Write: models the copy loop of `write` as evidently intended, storing `min(size, block end - address)` bytes. The loop as written is `Access.WriteAsWritten`, under Findings.

## Findings

| source | as written | input that shows it | evidently intended | confidence | as-written member | corrected member |
|---|---|---|---|---|---|---|
| vma.c:50-57 | `alloc_block` checks only that the range starts inside the arena and ends within it, so a size of 0 is accepted and stored as an empty miniblock | an arena of 20 and `ALLOC_BLOCK 0 5`, `ALLOC_BLOCK 5 0`, `ALLOC_BLOCK 5 5`: one block `[0, 10)` with miniblocks `[0, 5)`, `[5, 5)`, `[5, 10)`; a `FREE_BLOCK 5` then leaves the touching blocks `[0, 5)` and `[5, 10)` | refuse empty ranges, so that the blocks stay tiled by non-empty miniblocks and never touch | not executed | Allocation.ZeroSizeBreaksValid | Allocation.AllocPreservesValid |
| vma.c:518-527 | the inner copy loop of `write` fills each miniblock to its end without testing `idx < check_size`, so it copies bytes of the caller's buffer past `size` | a block `[0, 10)` of one read-write miniblock and `WRITE 0 3` with ten bytes in the text buffer: all ten are stored, not three | store `min(size, block end - address)` bytes, as `read` hands out | not executed | Access.WriteAsWrittenOverruns | Access.WriteBytes |
| vma.c:518-520 | the outer copy loop of `write` does not test `mnode`, so it takes a miniblock past the end of the list | the same block and `WRITE 5 10`: the run holds 10 bytes from the miniblock's start, so there is no warning; after five bytes the loop dereferences NULL | stop when the block's miniblocks run out, as the copy loop of `read` does | not executed | Access.WriteAsWrittenCrashes | Access.WriteThenRead |
