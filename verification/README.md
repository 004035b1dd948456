# Word-level driver layer and program database views

The set-top-box SDK under `montage-tech/` keeps most of its state in packed words. Two things are modelled.

**Words.** `hal_get_bits` / `hal_put_bits` read and write bit fields of 32-bit registers, the `SYS_*_BIT` macros
single bits, `ROUNDUP` / `ROUNDDOWN` align by masking, and bytes, request contexts, message ids, event ids and
chip revisions are packed with shifts and ORs. A word is a natural number below a power of two; `&`, `|`, `~`,
`<<`, `>>` are defined on it for any width (`Words.dfy`), and everything is proved by digits and by arithmetic,
never by enumerating a fixed width. Integers wrap where the C types do.

**Views.** `data_base16v2.c` is the client of the bit macros: its virtual views are arrays of 16-bit items (14-bit
element id, selection mark, active flag) that are edited in place and then merged back into the real view of the
table. The edits, the in-place cleanup, the Shell sort, `db_update_view` on a real view held in memory, and the flash
packets it writes are modelled as classes and methods over arrays; what they promise is stated on sequences.

| file | content |
|---|---|
| `Words.dfy`, `Sequences.dfy` | operators on words of any width, their digits, extensionality; a fact about sequences |
| `Fields.dfy`, `FieldRuns.dfy`, `HalBase.dfy` | bit fields of a register: one access, whole runs, memory cells |
| `BitMacros.dfy` | single-bit macros, sets of bits, agreement with the field functions |
| `Align.dfy` | alignment by masking |
| `Packing.dfy`, `Identifiers.dfy` | positional packing and the identifiers built with it |
| `ViewItems.dfy`, `ViewModel.dfy`, `VirtualView.dfy` | items, the edits as steps of a state machine, the class edited in place |
| `ViewLaws.dfy` | what each edit does, bit by bit, and to the flags of the view |
| `FlashPackets.dfy` | the copy of the real view in flash |
| `SyncModel.dfy`, `ShellSort.dfy`, `RealView.dfy`, `SyncRuns.dfy` | the update of the real view, its sort, and sessions of creations, edits and updates |

Main results:

- any run of safe `hal_put_bits` calls refines assignments to an abstract field map; two runs have the same effect
  on every register exactly when their last covering writes agree bit by bit, two writes commute exactly when they
  agree on shared bits, and a write is redundant exactly when later writes cover its field;
- the unmasked write keeps the neighbours of a field on every register exactly when the value fits;
- `ROUNDDOWN` and `ROUNDUP` are right exactly for powers of two, with the exact wrap-around of `ROUNDUP`;
- an edit of a virtual view keeps `active_num` equal to the number of active items exactly when it does not change
  the active flag through mark 1; after any run from a right count the count is right exactly when such changes
  cancel out modulo 2^16, and as long as the reserved id is not added, so is the assertion at the start of the
  update; no run loses an element id;
- the update of the real view never accesses index 0xFFFF exactly when every kept old item is in the list, it is
  right exactly when the view is in step with the list, and a call keeps it in step exactly when it respects the
  boundary between old items and additions;
- below the place that the update computes the list never changes, so that writing the packets from there on keeps
  the flash equal to the list; that place is exactly the first one that holds an item of the view, or the creation
  number; and the flash determines the list and is found again at the next start;
- every edit is described bit by bit, and the flags of a view after any run by what its calls checked and wrote;
- through a session of any number of creations, proper edits and updates, every update has room, passes its
  assertion, finds its items and leaves the list it should, in memory and in flash, and what no view held is never
  touched.

Where code and documentation differ, the model follows the code:

- the comment of `ROUNDUP` says `INT(x/y+ 1) * y`; at multiples the macro returns x (`Align.RoundUpComment`);
- the header says that marks are bits 14 and 15 and allows three of them, the item layout says that bit 15 is the
  active flag: mark 1 writes the active flag and bypasses the count (`ViewModel.StepCountedIff`,
  `ViewModel.MarkOneMiscounts`), mark 2 is bit 16 of a 16-bit item and is lost (`ViewItems.HighBitEffect`);
- moving or exchanging items across the boundary between old items and additions makes the next update access
  index 0xFFFF (`SyncModel.AllFoundIff`, `SyncRuns.MovedAdditionIsLost`) or leave an item twice
  (`SyncModel.UpdateRightIff`, `SyncRuns.ExchangedAdditionDuplicates`);
- a list read back from flash is used from memory only if it is marked as synchronised, which the code does where
  an empty item ends it: never for a list whose length is a multiple of 28 (`FlashPackets.Flash.Load`).

An access of the code outside its memory and a failed assertion end a call in the model, with a result that names
the fault; what the memory then holds is left open.

`memcpy` on overlapping memory is modelled as a copy from the first element to the last, which is what the code
relies on. `1 << 31` is taken as the unsigned word with bit 31 set.

## Model

| member | source | states |
|---|---|---|
| Fields.GetBitsValue | montage-tech/inc/hal/hal_base.h:113-117 | a field read is the register divided by 2^offset, modulo 2^num |
| Fields.PutBitsBit | montage-tech/inc/hal/hal_base.h:129-133 | every bit of the word after a write of any value to any field: old outside, value inside, old OR overflow above |
| Fields.PutBitsEffect | montage-tech/inc/hal/hal_base.h:132 | low part kept, field reads value mod 2^num, high part is the old one OR the truncated overflow |
| Fields.PutBitsCut | montage-tech/inc/hal/hal_base.h:132 | a field reaching past bit 31 is cut at the word, everything from offset up is the value |
| Fields.NeighboursSurviveHere | montage-tech/inc/hal/hal_base.h:132 | on a given register the neighbours survive iff the overflow sets only bits already set |
| Fields.NeighboursSurviveIff | montage-tech/inc/hal/hal_base.h:132 | the neighbours survive on all registers iff the truncated overflow is zero |
| Fields.OverflowCorrupts | montage-tech/inc/hal/hal_base.h:132 | writing 2 to the one-bit field 0 changes field 1 |
| Fields.Split | montage-tech/inc/hal/hal_base.h:113-117 | a word is its low part, a field and its high part, weighted |
| Fields.PutBitsClosedForm | montage-tech/inc/hal/hal_base.h:116-132 | a fitting write adds (new field - old field) * 2^offset: no carry or borrow |
| Fields.NestedRead | montage-tech/inc/hal/hal_base.h:113-117 | reading a field of a read field reads the register directly |
| FieldRuns.RunDigit | montage-tech/inc/hal/hal_base.h:129-133 | after any run, overlapping or not, each bit holds what its last covering write gave it, or its initial digit |
| FieldRuns.RunRefinesFieldMap | montage-tech/inc/hal/hal_base.h:113-133 | a run on a layout of disjoint fields refines assignments to a field map, and bits outside the layout never change |
| FieldRuns.FieldMapDeterminesWord | montage-tech/inc/hal/hal_base.h:113-133 | field map and outside bits together determine the register |
| FieldRuns.RunEqualIff | montage-tech/inc/hal/hal_base.h:129-133 | two runs give the same word on every register iff, at each bit, both or neither cover it and the last covering digits agree |
| FieldRuns.RunOrderIrrelevant | montage-tech/inc/hal/hal_base.h:129-133 | runs with the same set of pairwise agreeing writes end in the same word, whatever order and repetition |
| FieldRuns.RunPermutation | montage-tech/inc/hal/hal_base.h:129-133 | any permutation of writes to pairwise disjoint fields ends in the same word |
| FieldRuns.CommuteIffAgree | montage-tech/inc/hal/hal_base.h:129-133 | two writes commute on every register iff they agree on the bits they share |
| FieldRuns.DeadWriteIff | montage-tech/inc/hal/hal_base.h:129-133 | a write is redundant for all values and registers iff the later writes cover its field |
| HalBase.StoreWord | montage-tech/inc/hal/hal_base.h:50-57 | `hal_put_u32` changes its own cell only |
| HalBase.LoadBits | montage-tech/inc/hal/hal_base.h:113-117 | `hal_get_bits` on memory, by value and by digits |
| HalBase.StoreBits | montage-tech/inc/hal/hal_base.h:129-133 | `hal_put_bits` in place: the new cell digit by digit, all other cells unchanged |
| HalBase.BankRunSplits | montage-tech/inc/hal/hal_base.h:129-133 | in any interleaving over many registers each register sees only its own writes |
| BitMacros.BitRunRefinesSet | montage-tech/inc/sys_define.h:534-547 | any run of set, clear and put, on a variable of any width up to 32, refines insertions and removals; the read macro decides membership |
| BitMacros.MembersDetermine | montage-tech/inc/sys_define.h:534-547 | the set of bit numbers is the whole variable |
| BitMacros.GetBitAgrees | montage-tech/inc/sys_define.h:547 | the read macro is the one-bit field read |
| BitMacros.PutBitAgreesIff | montage-tech/inc/sys_define.h:542-543 | the write macro and the one-bit field write agree on all registers iff the value is already the stored digit |
| BitMacros.MixedRunAgrees | montage-tech/inc/sys_define.h:542-547 | in a mixed run every single-bit write may use either implementation |
| BitMacros.PutBitsIsDigitByDigit | montage-tech/inc/hal/hal_base.h:129-133 | a fitting field write is the single-bit macro on each digit, in any order |
| Align.RoundDownPow2 | montage-tech/inc/sys_define.h:708 | for a power of two the macro is rounding by division |
| Align.LowBitByMask | montage-tech/inc/sys_define.h:708 | `y & ~(y - 1)` is the lowest set bit of y, at any width |
| Align.RoundDownIff | montage-tech/inc/sys_define.h:708 | the macro rounds every x down to a multiple of y iff y is a power of two |
| Align.RoundUpPow2 | montage-tech/inc/sys_define.h:704 | without wrap the macro gives the least multiple at or above x |
| Align.RoundUpWraps | montage-tech/inc/sys_define.h:704 | the words above 2^32 - 2^k, and no other positive ones, round to 0 |
| Align.RoundingGalois | montage-tech/inc/sys_define.h:704-708 | both macros are adjoint to the inclusion of the multiples: down on every word, up on every word that does not wrap |
| Align.RoundUpAdjointIff | montage-tech/inc/sys_define.h:704 | rounding up is adjoint at x iff x does not wrap |
| Align.RoundUpIff | montage-tech/inc/sys_define.h:704 | the macro is right on all x that do not wrap iff y is a power of two |
| Align.RoundUpComment | montage-tech/inc/sys_define.h:701-704 | the formula in the comment holds iff x is not a multiple |
| Align.RoundDigits | montage-tech/inc/sys_define.h:704-708 | every bit of both macros for every alignment, 0 included |
| Packing.UnpackPack | montage-tech/inc/sys_define.h:584-612 | parts in range come back from the number they pack into, for any widths |
| Packing.PackUnpack | montage-tech/inc/sys_define.h:584-612 | every number below the total width is the weighted sum of its parts |
| Packing.UnpackIsGetBits | montage-tech/inc/hal/hal_base.h:113-117 | the parts of a register in any partition are its bit fields |
| Packing.GetBytesAreParts | montage-tech/inc/sys_define.h:551-563 | the four byte macros return the base-256 digits |
| Packing.BytesToDword | montage-tech/inc/sys_define.h:584-602 | four bytes of any width assemble to the positional value of their low bytes |
| Packing.DwordRoundTrip | montage-tech/inc/sys_define.h:551-602 | assembly and disassembly of dwords undo each other in both directions |
| Packing.LwordRoundTrip | montage-tech/inc/sys_define.h:606-612 | a 64-bit word gives back both dwords, over-wide ones cut |
| Identifiers.RequestRoundTrip | montage-tech/inc/ap/ap_cas.h:14-31 | the getters return the arguments modulo their widths, and both data bytes as one word |
| Identifiers.RequestValue | montage-tech/inc/ap/ap_cas.h:14-17 | the context as a number |
| Identifiers.RequestRebuild | montage-tech/inc/ap/ap_cas.h:14-31 | every context is the one made from its own parts |
| Identifiers.MessageIdDecodesIff | montage-tech/inc/drv/common.h:349-367 | a message id decodes to command, layer and number iff each fits its place |
| Identifiers.MessageIdValue | montage-tech/inc/drv/common.h:349-367 | on those the sum equals the OR |
| Identifiers.MessageIdSum | montage-tech/inc/drv/common.h:349-367 | and the number they stand for |
| Identifiers.EventDecodesIff | montage-tech/inc/ap/ap_framework.h:21-39 | an event id reads back as application, class and number iff the number stays in its class |
| Identifiers.EventIdValue | montage-tech/inc/ap/ap_framework.h:21-39 | the event id as a number, for any number of the enumeration |
| Identifiers.ChipPartition | montage-tech/inc/hal/hal_misc.h:1593-1610 | custom and version part split every revision without overlap |
| Identifiers.FamilyOfVersion | montage-tech/inc/hal/hal_misc.h:1585-1588 | the family depends on the version part only |
| Identifiers.RevisionDecodesIff | montage-tech/inc/hal/hal_misc.h:51-93 | revision k of a family decodes to the family iff k < 16 |
| ViewItems.HighBitEffect | montage-tech/src/mdl/database/data_base16v2.c:48-104 | writing bit 14 or above keeps the id; bit 15 is the active flag; a bit from 16 on is lost |
| ViewItems.NullBySettingIff | montage-tech/src/mdl/database/data_base16v2.c:48-94 | setting a bit makes the empty item iff this was the one bit missing, or none was |
| ViewModel.MoveUndo | montage-tech/src/mdl/database/data_base16v2.c:2373-2410 | a move is undone by the reverse move |
| ViewModel.MovedAt | montage-tech/src/mdl/database/data_base16v2.c:2373-2410 | where every item of a moved sequence comes from |
| ViewModel.ClearEmptiesIff | montage-tech/src/mdl/database/data_base16v2.c:2193-2218 | clearing leaves nothing active iff no empty item cuts it short and the count is not below the number of active items; the count left is then the difference |
| ViewModel.StepCountedIff | montage-tech/src/mdl/database/data_base16v2.c:2007-2410 | each edit keeps the active count right iff it does not change the active flag through mark 1 |
| ViewModel.StepGap | montage-tech/src/mdl/database/data_base16v2.c:2007-2410 | each edit changes the difference between count and active items, in 16 bits, by its drift: the weight that mark 1 takes away |
| ViewModel.MarkOneMiscounts | montage-tech/src/mdl/database/data_base16v2.c:2259-2286 | on a new view of one item, clearing mark 1 makes the count wrong |
| ViewModel.RunCountedIff | montage-tech/src/mdl/database/data_base16v2.c:2007-2410 | after any run from any state the count is right iff the initial difference and the drifts add up to 0 modulo 2^16 |
| ViewModel.RunCounted | montage-tech/src/mdl/database/data_base16v2.c:2007-2410 | over any run of safe edits the count stays right |
| ViewModel.NullMadeIff | montage-tech/src/mdl/database/data_base16v2.c:2007-2410 | on a view without empty items, exactly these edits make one: adding 0x7FFF or 0xFFFF, activating 0x7FFF, setting mark 0 on 0xBFFF or mark 1 on 0x7FFF |
| ViewModel.RunConservesIds | montage-tech/src/mdl/database/data_base16v2.c:2007-2410 | over any run the ids of the view are the initial ones plus the added ones, as a multiset |
| ViewModel.RunReservedIff | montage-tech/src/mdl/database/data_base16v2.c:2007-2410 | the reserved id is in a view after a run iff it was there or was added |
| ViewLaws.StepBits | montage-tech/src/mdl/database/data_base16v2.c:2007-2410 | every bit of every place after each edit: what is set, what is cleared, what moves, and that all else stays |
| ViewLaws.StepTotal | montage-tech/src/mdl/database/data_base16v2.c:2007-2058 | one place more after an addition that the store accepts while the table has room, and after nothing else |
| SyncRuns.StepKeepsFrame | montage-tech/src/mdl/database/data_base16v2.c:2007-2410 | no edit changes the creation number, the number of filtered-out items or the capacity |
| ViewLaws.MarkReadsBack | montage-tech/src/mdl/database/data_base16v2.c:2259-2308 | a mark reads back as written, and every other mark as before |
| ViewLaws.DeleteUndone | montage-tech/src/mdl/database/data_base16v2.c:2167-2247 | activating an item just deleted restores all items and the count |
| ViewLaws.RunPlusIff | montage-tech/src/mdl/database/data_base16v2.c:624-650 | plus-only mode outlasts a run iff no call of it checks a position of the creation: of two positions the second only if the first is in the view, for clearing every active item reached |
| ViewLaws.RunNeedsIff | montage-tech/src/mdl/database/data_base16v2.c:2007-2410 | after a run there is something to write iff there was, or a call got to its write |
| VirtualView.VirtualView.constructor | montage-tech/src/mdl/database/data_base16v2.c:714-884 | a new view holds the items before the first empty one that pass the filter, in order, with right counters |
| ViewLaws.PassingAt | montage-tech/src/mdl/database/data_base16v2.c:790-824 | a new view lists the items that pass in the order of the list |
| VirtualView.VirtualView.CheckParameter | montage-tech/src/mdl/database/data_base16v2.c:624-650 | the check and its effect on plus-only mode |
| VirtualView.VirtualView.AddItem | montage-tech/src/mdl/database/data_base16v2.c:2007-2058 | the add step in place, with status and position for success, full and failure |
| VirtualView.VirtualView.DeleteItem | montage-tech/src/mdl/database/data_base16v2.c:2167-2184 | the delete step in place |
| VirtualView.VirtualView.ClearItems | montage-tech/src/mdl/database/data_base16v2.c:2193-2218 | the clearing loop is the clear step |
| VirtualView.VirtualView.ActivateItem | montage-tech/src/mdl/database/data_base16v2.c:2228-2247 | the activate step in place |
| VirtualView.VirtualView.SetMark | montage-tech/src/mdl/database/data_base16v2.c:2259-2285 | the mark step in place |
| VirtualView.VirtualView.GetMark | montage-tech/src/mdl/database/data_base16v2.c:2296-2308 | the mark read is the digit of the item |
| VirtualView.VirtualView.ExchangeItems | montage-tech/src/mdl/database/data_base16v2.c:2319-2340 | the exchange step in place |
| VirtualView.VirtualView.MoveItem | montage-tech/src/mdl/database/data_base16v2.c:2373-2410 | the move step in place |
| VirtualView.VirtualView.ElementIdAt | montage-tech/src/mdl/database/data_base16v2.c:2413-2427 | the element id at a position, or the unknown id |
| VirtualView.MoveInPlace | montage-tech/src/mdl/database/data_base16v2.c:2391-2409 | the loop and the copy take the item out and put it back at the target |
| VirtualView.Sweep | montage-tech/src/mdl/database/data_base16v2.c:1121-1158 | the in-place cleanup: active items in order, rest, deleted items last-first, and the number of active ones |
| VirtualView.SweptKeeps | montage-tech/src/mdl/database/data_base16v2.c:1121-1158 | the cleanup is a permutation |
| ViewLaws.SweptAt | montage-tech/src/mdl/database/data_base16v2.c:1121-1158 | the place of every item after the cleanup |
| VirtualView.VirtualView.Cleanup | montage-tech/src/mdl/database/data_base16v2.c:1121-1158 | the cleanup of a view, nothing else changed |
| VirtualView.AssertionIff | montage-tech/src/mdl/database/data_base16v2.c:1121-1682 | the assertion of the update holds iff the difference of the count is what an empty item hides from the cleanup |
| VirtualView.RunAssertionIff | montage-tech/src/mdl/database/data_base16v2.c:1681-1682 | after any run from any state the assertion holds iff initial difference, drifts and hidden items add up to 0 modulo 2^16 |
| VirtualView.UpdateAssertionIff | montage-tech/src/mdl/database/data_base16v2.c:1681-1682 | from a right count, without additions of the reserved id, the assertion holds after a run iff its drifts add up to 0 modulo 2^16 |
| ShellSort.Insert | montage-tech/src/mdl/database/data_base16v2.c:1584-1600 | one gapped insertion extends the ordered part by one, same multiset |
| ShellSort.Sort | montage-tech/src/mdl/database/data_base16v2.c:1574-1601 | the Shell sort leaves an ascending permutation |
| RealView.RealView.Append | montage-tech/src/mdl/database/data_base16v2.c:1394-1399 | appending to the list, or the fault if its memory is full |
| RealView.RealView.RemoveItem | montage-tech/src/mdl/database/data_base16v2.c:1377-1392 | removal of the first item with the id, and its index |
| RealView.RealView.FindIndex | montage-tech/src/mdl/database/data_base16v2.c:1528-1555 | index of the first active item with the id, or 0xFFFF |
| RealView.RealView.SetAt | montage-tech/src/mdl/database/data_base16v2.c:1560-1572 | overwriting an active item, or the fault if the index is outside the memory |
| RealView.RemoveDead | montage-tech/src/mdl/database/data_base16v2.c:1699-1726 | the deletion loop removes exactly the ids of the deleted items before the first empty one, and follows the least place of the list that changes |
| RealView.WriteBack | montage-tech/src/mdl/database/data_base16v2.c:1731-1808 | the kept items are written, in view order, one after the other at the sorted places at which they were found; the fault iff one was not found |
| RealView.UpdateView | montage-tech/src/mdl/database/data_base16v2.c:1626-1811 | the update of the list in memory and of its packets: exactly when it faults, and how, and otherwise the new list, the new view state, the deleted elements and the new flash |
| SyncModel.PlacedParts | montage-tech/src/mdl/database/data_base16v2.c:1738-1766 | values written at the ascending places of some ids stand there in order and leave the rest alone |
| SyncModel.FindsIff | montage-tech/src/mdl/database/data_base16v2.c:1774-1783 | the update finds every item it keeps, and so never accesses 0xFFFF, iff every one of them that is not an addition is in the list, also where an empty item cuts the view short |
| SyncModel.AllFoundIff | montage-tech/src/mdl/database/data_base16v2.c:1774-1783 | the same for a view without empty items: iff every kept item before the additions is in the list |
| SyncModel.UpdateDoneIff | montage-tech/src/mdl/database/data_base16v2.c:1626-1811 | the update is carried out iff the view has changed, the additions have room, the assertion holds and every old item to keep is in the list; without empty items, with a right count for the assertion |
| SyncModel.BelowUnchanged | montage-tech/src/mdl/database/data_base16v2.c:1671-1811 | below the least of the creation number, the removal places and the first sorted place, the update leaves the list as it was, whatever the view holds |
| SyncModel.ChangedFromExact | montage-tech/src/mdl/database/data_base16v2.c:1671-1793 | for a view in step, that place is the least one of the list that holds an item of the view, or the creation number |
| SyncModel.RemovedAtExact | montage-tech/src/mdl/database/data_base16v2.c:1377-1392 | a removal reports the first place with the id, or 0xFFFF |
| SyncModel.WriteAllAt | montage-tech/src/mdl/database/data_base16v2.c:1560-1572 | what stands at a place after the writes: the last value written there, if the place held an active item |
| SyncModel.UpdateAgrees | montage-tech/src/mdl/database/data_base16v2.c:1738-1766 | the new list is well formed, shows the view's items in view order, lost the deleted ones, keeps the others in order |
| SyncModel.UpdateRightIff | montage-tech/src/mdl/database/data_base16v2.c:1626-1811 | the update finds its items and is right iff the view was in step |
| SyncRuns.StepInStepIff | montage-tech/src/mdl/database/data_base16v2.c:2007-2410 | each edit keeps the view in step iff it adds a fresh id and does not cross the boundary of additions |
| SyncRuns.RunInStep | montage-tech/src/mdl/database/data_base16v2.c:2007-2410 | over any run of proper edits the count stays right, the view in step, and the lengths of list and view balanced |
| SyncRuns.CreatedInStep | montage-tech/src/mdl/database/data_base16v2.c:714-884 | a new view is in step with the list it was made from and has nothing to write |
| SyncRuns.UpdateGood | montage-tech/src/mdl/database/data_base16v2.c:1626-1811 | after an update the view is in step with the new list again, with right counters, balanced lengths and the list in flash |
| SyncRuns.UpdatePersists | montage-tech/src/mdl/database/data_base16v2.c:1671-1811 | writing the packets from that place on is enough: if the flash held the list before the update, it holds the list after |
| SyncRuns.SessionDumpsFrom | montage-tech/src/mdl/database/data_base16v2.c:1671-1810 | in a session the flash is written from the least place that holds an item of the view, or from the creation number |
| SyncRuns.EditsReachTheList | montage-tech/src/mdl/database/data_base16v2.c:714-1811 | from creation over any run of proper edits, the update has room, succeeds and leaves the right list, and without pending changes the list is right already |
| SyncRuns.SessionSound | montage-tech/src/mdl/database/data_base16v2.c:714-2410 | through any session of creations, proper edits and updates, every update succeeds and leaves a list that agrees with the view and the list before, and a flash that holds it |
| SyncRuns.SessionKeepsOthers | montage-tech/src/mdl/database/data_base16v2.c:714-2410 | through any session the items that no view held stay in the list as they were, in order |
| SyncRuns.SessionReloads | montage-tech/src/mdl/database/data_base16v2.c:714-2410 | at any time of a session the list is the only one that the flash can stand for |
| SyncRuns.MovedAdditionIsLost | montage-tech/src/mdl/database/data_base16v2.c:1774-1783 | an addition moved before the old items is not found by the update |
| SyncRuns.ExchangedAdditionDuplicates | montage-tech/src/mdl/database/data_base16v2.c:1774-1783 | a deleted addition exchanged with an old item: all items are found, and the list is wrong |
| FlashPackets.Flash.Dump | montage-tech/src/mdl/database/data_base16v2.c:1406-1523 | the dump in place: the packets from the first changed one on written, the ones behind the last deleted |
| FlashPackets.Flash.Load | montage-tech/src/mdl/database/data_base16v2.c:828-880 | reading the list back from flash: the list always, the synchronisation flag iff its length is no multiple of 28 |
| FlashPackets.Recount | montage-tech/src/mdl/database/data_base16v2.c:407-438 | at the next start the packets are counted and their elements activated: for a flash that holds a list and no packet behind it, the old count, all numbers right, and the ids of the list in order |
| FlashPackets.DumpPersistsIff | montage-tech/src/mdl/database/data_base16v2.c:1406-1523 | if the flash held one list, it holds another after a dump from a place on iff the packets before it say the same of both |
| FlashPackets.DumpNode | montage-tech/src/mdl/database/data_base16v2.c:1406-1523 | every node after a dump: packets that end behind the place carry table, number and items, the nodes behind the last packet are gone, all others are as before |
| FlashPackets.FlashedPacket | montage-tech/src/mdl/database/data_base16v2.c:1456-1500 | every packet of a flash that holds a list carries its table, its number and its items |
| FlashPackets.DumpTidies | montage-tech/src/mdl/database/data_base16v2.c:1510-1521 | a dump leaves no packet of its table behind the last one |
| FlashPackets.SameBelowPersists | montage-tech/src/mdl/database/data_base16v2.c:1406-1523 | it does if the lists are equal below that place |
| FlashPackets.OtherNodesKept | montage-tech/src/mdl/database/data_base16v2.c:1406-1523 | a dump touches no node outside the old and new packets of its table |
| FlashPackets.FlashedUnique | montage-tech/src/mdl/database/data_base16v2.c:828-880 | the flash determines the list |

## Left out

- The branch of `db_update_view_16v2` for a real view that is not held in memory, undo and save, and the node store under the packets, which is taken to keep what is written.
- The element store (data manager): what it answers to an addition is a parameter, and deletions are returned as a list of ids.
- Several views at once: the methods take the view itself, so the check of the view number and the tables of views are not modelled; filters are a function of the item.
- `db_dump_view_item_16v2`, which overwrites a view with caller data, and sub-views, counts for several favourites, editing of element contents.
- `view_del_flag`, which only tells other code that something was deleted.
- SyncRuns.SessionSound: one view and its list; the element store, which decides the ids of additions, is represented by the condition that an added id is new and not the reserved one.
- Volatile side effects of registers, concurrent access, and the 8-bit and 16-bit register cells, which are plain stores and loads.
- Macro hygiene and signed shifts: every macro is modelled on evaluated unsigned words, and the single-bit macros on variables of at most 32 bits.
- Uniqueness of message and device names: two messages and two device types share a value in the source, only the composition scheme is injective.
- The fixed-mask nibble macros, `ABS`, `MAX`, `MIN` and plain enumerations.
- IPC pipes, scanning, upgrade, guide and conditional access state machines: only their declarations or unrelated code is involved.
