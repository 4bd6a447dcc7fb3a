# MSM early memory-bank bookkeeping, in Dafny

This project models the memory-bank code of `arch/arm/mach-msm/memory.c`, which runs early in ARM boot. The kernel keeps the physical memory it will use in the global `meminfo`. That is a fixed array of `struct membank {start, size, highmem}` plus a count `nr_banks` of live entries. The file changes this table in three ways:

- `merge_meminfo` deletes every bank of size zero, closing each gap with `memmove`.
- `adjust_meminfo(start, size)` punches a hole into the table. Each bank that fully contains the hole and that the loop reaches is split into a piece below the hole and a piece above it (see Left out: the loop can skip a second such bank). The upper piece is never high memory. The table is then merged again.
- The device-tree callbacks read the properties of a flattened device-tree node as big-endian 32-bit `(start, size)` cell pairs:
  - `dt_scan_for_memory_hole` reads `qcom,memblock-remove` and passes each pair to `adjust_meminfo`;
  - `dt_scan_for_memory_reserve` passes the same pairs to `memblock_remove`, and the single pair of `qcom,memblock-reserve` to `memblock_reserve`.

Modules, one per concern:

- `Options` (options.dfy): an optional value, for absent properties and rejected encodings.
- `Banks` (banks.dfy): the table (`MemInfo`, whose capacity `NR_BANKS` is the length of its `bank` sequence), and facts about bank sequences.
- `Memmove` (memmove.dfy): the two `memmove` calls as pure functions on sequences.
- `Merge` (merge.dfy): `merge_meminfo`.
- `Ideal` (ideal.dfy): an independent reference for what punching a hole should do. Every bank holding the hole is replaced by its non-empty pieces.
- `Adjust` (adjust.dfy): `adjust_meminfo`. Its loop is mirrored by the recursive function `AdjustFrom`, and the properties are proved about that function.
- `Cells` (cells.dfy): decoding and encoding of the two properties.
- `Scan` (scan.dfy): the two device-tree callbacks.

The operations take the table as a value and return the new table instead of writing a global.

- A write past the end of the bank array is an `Outcome.Overrun` result.
- `check_for_compat` becomes the boolean `Node.compatible`.
- A missing property is `None`.
- `memblock_remove` and `memblock_reserve` become entries of a request log, in call order.

## Model

| member | source | states |
|---|---|---|
| `Merge.MergeMeminfo` | arch/arm/mach-msm/memory.c:157-172 | the live banks afterwards are exactly the non-empty banks of the input, in their original order; none has size zero; `nr_banks` drops by exactly the number of empty banks; a table without empty banks is returned unchanged, capacity included |
| `Merge.MergeTwice` | arch/arm/mach-msm/memory.c:157-172 | merging a merged table changes nothing, so merging twice gives the same table as merging once |
| `Memmove.CloseGap` | arch/arm/mach-msm/memory.c:165-166 | the gap-closing move (corrected count): slots below `i` unchanged, live slots above `i` shifted down by one, everything from the last live slot on unchanged |
| `Memmove.CloseGapAsWrittenOverreadsFullTable` | arch/arm/mach-msm/memory.c:165-166 | the move as written, on a full table, reads the slot past the end of the array |
| `Memmove.CloseGapAsWrittenAgreesOnLive` | arch/arm/mach-msm/memory.c:165-167 | below capacity the move as written stays in bounds and leaves the same live banks as the corrected move |
| `Memmove.OpenGap` | arch/arm/mach-msm/memory.c:234-236 | the gap-opening move: slots up to `i` unchanged, slots `i .. nr-1` shifted up by one into slot `nr`, which must exist; slots above `nr` unchanged |
| `Adjust.SplitBank` | arch/arm/mach-msm/memory.c:232-242 | a bank containing the hole is replaced, in place, by `[bank.start, start)` followed by `[start+size, end)`, the second not high memory; every other live bank is kept in order, and exactly one live slot is added |
| `Adjust.SplitFillsTable` | arch/arm/mach-msm/memory.c:232-243 | with one free slot left, a split whose hole starts or ends at an edge of its bank fills the array and leaves an empty piece, and every move the following merge can make with the count as written then reads past the array |
| `Adjust.OverreadExample` | arch/arm/mach-msm/memory.c:232-243 | a concrete instance: a two-slot table with the live bank [0x1000, 0x2000) and the hole [0x1000, 0x1800) leaves a full table whose first bank is empty, so the merge's move reads past the array |
| `Adjust.SplitAndMerge` | arch/arm/mach-msm/memory.c:232-243 | after the split and the merge, the live banks are the split table with its empty pieces dropped |
| `Adjust.AdjustLoop` | arch/arm/mach-msm/memory.c:229-245 | the C loop, index bump after a split included, computes `AdjustFrom`, the recursive mirror of the loop; a hole no bank holds leaves the table unchanged, `nr_banks` included |
| `Adjust.AdjustFromUnchanged` | arch/arm/mach-msm/memory.c:229-245 | when no bank from the current index on holds the hole, the loop changes nothing and splits nothing |
| `Adjust.AdjustFromRoom` | arch/arm/mach-msm/memory.c:234-236 | with a free slot for every bank ahead that holds the hole, the loop never writes past the array |
| `Adjust.AdjustFromOverrun` | arch/arm/mach-msm/memory.c:234-236 | with at most one bank ahead holding the hole, the loop writes past the array exactly when that bank exists and the array is full |
| `Adjust.AdjustFromSplits` | arch/arm/mach-msm/memory.c:232-243 | at most one split per bank holding the hole; no split leaves the table exactly as it was |
| `Adjust.AdjustFromShape` | arch/arm/mach-msm/memory.c:234-243 | the table stays within its array, gains at most one bank per split, and has no empty bank once a split has been merged |
| `Adjust.AdjustFromTotalSize` | arch/arm/mach-msm/memory.c:239-243 | every split removes exactly `size` bytes from the covered memory |
| `Adjust.AdjustFromFitsWord` | arch/arm/mach-msm/memory.c:239-241 | the pieces stay inside the 32-bit address space |
| `Adjust.AdjustFromSingle` | arch/arm/mach-msm/memory.c:229-245 | with a single bank holding the hole, the loop splits that bank and merges once: the result is the table with that bank replaced by its two pieces and every empty bank dropped |
| `Adjust.AdjustMeminfo` | arch/arm/mach-msm/memory.c:225-246 | a free slot per holding bank rules out the write past the array (`Overrun`); with at most one holding bank that write happens iff that bank exists and the table is full; a hole no bank holds leaves the table unchanged; otherwise the covered memory shrinks by exactly `size` per split, the table has no empty bank and stays in the address space, with a single holder the result is the reference `IdealAdjust` with its empty banks dropped (the merge after the split also drops the empty banks that were already there), and in a table without empty banks it is `IdealAdjust` itself |
| `Adjust.TwoHoldersOneSplit` | arch/arm/mach-msm/memory.c:234-243 | the index bump after a split skips a second bank holding the hole: two identical banks and a hole at their lower edge give one split, the second bank left whole |
| `Adjust.EmptyHoleOnBoundary` | arch/arm/mach-msm/memory.c:232-243 | a zero-size hole on the boundary of two adjacent banks is held by both, yet the loop splits once and returns the table unchanged, flags included |
| `Adjust.SplitIdeal` | arch/arm/mach-msm/memory.c:232-243 | splitting the one bank that holds the hole and merging gives the reference result with its empty banks dropped, and the reference result itself in a table without empty banks |
| `Banks.NonZeroIdempotent` | arch/arm/mach-msm/memory.c:161-171 | dropping the empty banks twice is dropping them once |
| `Banks.SplitAtTotalSize` | arch/arm/mach-msm/memory.c:239-241 | the two pieces of a split bank together cover the bank less the hole |
| `Banks.CountZero` | arch/arm/mach-msm/memory.c:232-233 | no bank holds the hole exactly when the count of holding banks is zero |
| `Ideal.IdealSingle` | arch/arm/mach-msm/memory.c:232-242 | with one bank holding the hole, the reference result replaces exactly that bank by its pieces |
| `Ideal.IdealTotalSize` | arch/arm/mach-msm/memory.c:239-241 | the reference result covers the input less `size` per holding bank |
| `Ideal.CountAtMostOne` | arch/arm/mach-msm/memory.c:232-233 | in a table of ordered, disjoint banks, a hole of positive size is held by at most one bank |
| `Ideal.IdealWellFormed` | arch/arm/mach-msm/memory.c:232-242 | punching a hole keeps a table of non-empty, ordered, disjoint banks that way |
| `Cells.Be32BytesOf` | arch/arm/mach-msm/memory.c:210-211 | reading back the four big-endian bytes of a 32-bit value gives the value |
| `Cells.PairsAt` | arch/arm/mach-msm/memory.c:206-211 | a property of `len` bytes yields `len / 8` pairs, pair `h` made of cells `2h` and `2h + 1` |
| `Cells.DecodeRemove` | arch/arm/mach-msm/memory.c:199-207 | a remove property is accepted exactly when its length is non-zero and a multiple of 8 bytes |
| `Cells.DecodeReserve` | arch/arm/mach-msm/memory.c:134-141 | a reserve property is accepted exactly when it is 8 bytes long |
| `Cells.ReserveIsOneRemove` | arch/arm/mach-msm/memory.c:108-141 | an accepted reserve property decodes as a remove property with one pair |
| `Cells.DecodeEncode` | arch/arm/mach-msm/memory.c:115-120 | decoding the encoding of a non-empty list of 32-bit pairs gives back the pairs |
| `Cells.EncodeDecode` | arch/arm/mach-msm/memory.c:115-120 | encoding the pairs of an accepted property gives back its bytes |
| `Scan.Holes` | arch/arm/mach-msm/memory.c:188-207 | a node yields holes only if it is compatible and its remove property is present and accepted |
| `Scan.IdealScanWellFormed` | arch/arm/mach-msm/memory.c:209-214 | punching positive-size holes one after another keeps a well-formed table well-formed, one bank more per hole at most |
| `Scan.PunchHoles` | arch/arm/mach-msm/memory.c:206-214 | the hole loop applies `adjust_meminfo` to every pair in order: whenever it finishes on a well-formed table with holes of positive size, the result is the reference scan `IdealScan` of the pairs in order; with a free slot per hole it always finishes; holes no bank holds leave the table unchanged |
| `Scan.DtScanForMemoryHole` | arch/arm/mach-msm/memory.c:178-219 | returns 0; a node that is not compatible, or lacks the property, or has a malformed property, or whose holes no bank holds, leaves the table unchanged; the result never covers more memory; on a well-formed table with holes of positive size, every finished scan is the reference `IdealScan` and is well-formed; with a free slot per hole as well, the scan always finishes |
| `Scan.RemovalsAt` | arch/arm/mach-msm/memory.c:118-122 | the removal log has one `memblock_remove` per hole, entry `k` for hole `k` |
| `Scan.Reservation` | arch/arm/mach-msm/memory.c:134-143 | at most one reservation, issued exactly when the node is compatible and its reserve property is 8 bytes |
| `Scan.DtScanForMemoryReserve` | arch/arm/mach-msm/memory.c:80-154 | returns 0; the requests are one `memblock_remove` per pair of an accepted remove property, in order, followed by the reservation; a malformed remove property skips only the removals, and a malformed or absent reserve property only the reservation |

## Left out

- `clean_and_invalidate_caches`, `clean_caches` and `invalidate_caches` (memory.c:41-60): thin wrappers over architecture cache-maintenance calls, with no logic of their own.
- `memtype_name` and `EXPORT_COMPAT`: static data with no behaviour.
- `check_for_compat`: the scan of the exported compatible strings is a foreign device-tree lookup, so it becomes the flag `Node.compatible`.
- `of_get_flat_dt_prop`: replaced by the node's two optional byte strings.
- The internals and return values of `memblock_remove` and `memblock_reserve`: the return value only chooses between two log messages. The model records the calls.
- `WARN` and `pr_info` messages.
- `arch/arm/mach-msm/pm-boot.c` is not part of this model. It is a secure-monitor call, driver registration and I/O mapping whose constants live in headers that are not available here.
- `NR_BANKS`: its value is in a header that is not available here. The capacity is the length of the bank sequence, so every result holds for every capacity.
- Adjust.AdjustMeminfo: machine-word wrap-around of `start + size` and `bank->start + bank->size` is not modelled. The method requires `start + size < 2^32`, and every live bank to end below `2^32`.
- Adjust.AdjustMeminfo: the kernel code never checks capacity before opening a gap, so on a full table it writes past the array. The model returns `Overrun` at that point and proves when it cannot happen, instead of demanding a free slot up front. `Overrun` marks only that write: the read past the array by the merge that follows a split which fills the table (see Findings) is not an `Overrun`, because the model merges with the corrected count.
- Adjust.AdjustMeminfo: the result is related to the reference `IdealAdjust` only when at most one bank holds the hole. With two or more holders, the index bump after a split can skip a bank that merging slid under the index. That holder is then left unsplit; `Adjust.TwoHoldersOneSplit` and `Adjust.EmptyHoleOnBoundary` show two such cases. The general contract still bounds the splits, the size, the covered memory and the overrun.
- Scan.DtScanForMemoryHole: every hole is required to end below `2^32`, for the same wrap-around reason. The equality with the reference scan is stated for ordered, disjoint tables without empty banks and holes of positive size; on other tables two banks may hold the same hole, which the previous line covers.
- Scan.PunchHoles: an overrun stops the model's loop, because the kernel's behaviour after writing past the array is undefined.
- Scan.PunchHoles: the result is tied to the pairs, in order, only on ordered, disjoint tables without empty banks and with holes of positive size, through the reference scan `IdealScan`. On other tables two banks may hold the same hole and the loop may skip one, so the contract only bounds the table and its covered memory and gives the unchanged table when no bank holds any hole.

## Findings

| source | as written | input that shows it | evidently intended | confidence | as-written member | corrected member |
|---|---|---|---|---|---|---|
| arch/arm/mach-msm/memory.c:165-166 | `merge_meminfo` moves `nr_banks - i` banks from `bank + i + 1`, one more than the live tail holds | `adjust_meminfo` on a table with `nr_banks == NR_BANKS - 1` and a hole that starts or ends at an edge of the bank holding it: the split fills the array and leaves an empty piece, and the merge's move then reads `meminfo.bank[NR_BANKS]`; e.g. two slots, the live bank [0x1000, 0x2000), the hole [0x1000, 0x1800) | move `nr_banks - i - 1` banks | not executed | `Memmove.CloseGapAsWrittenOverreadsFullTable` | `Memmove.CloseGap` |

`Memmove.CloseGapAsWritten` models the move as written. `Adjust.SplitFillsTable` shows how `adjust_meminfo` reaches it (`merge_meminfo` is only called after a split), and `Adjust.OverreadExample` gives the concrete input. `Memmove.CloseGapAsWrittenAgreesOnLive` shows that below capacity the extra slot it copies is never live afterwards. `Merge.MergeMeminfo` uses the corrected `Memmove.CloseGap`.
