# A Dafny model of QEMU's state-keeping core and of a ramdisk packer

The project models the parts of a QEMU tree (0.15 era) that keep several copies of the same
information in step, and the archive editor of the ramdisk script beside it, and proves what
each of them is for. `dafny verify dfyconfig.toml` checks everything.

* **Live migration of RAM** (`RamList`, `RamSave`, `RamLoad`, `Migration`; `BufferedFile`, `QemuFile`
  and `Transfer`; `Bytes`). The sender scans dirty pages round-robin and emits tagged records; the
  receiver replays them. Both are classes whose methods refine functions on values. `Migration` is the two-party
  system with guest writes, sender and receiver steps in any order. Its invariant: every page is
  dirty, or draining the bytes on the wire makes the receiver's copy right. After the last stage
  with a stopped guest both RAMs are equal, over any run (`Migration.Finish`) and for the calls of a
  whole migration (`Migration.Migrate`). `Transfer` passes the bytes through QEMUFile and the
  rate-limited file: in every run without an error the bytes on their way are the wire of that
  invariant, and a migration whose channel takes everything ends with equal RAMs
  (`Transfer.Migrate`).
* **The translation-block cache** (`Links`, `JumpLists`, `Unchain`, `Chains`, `CodeBitmap`,
  `TbCache`, `Smc`, `TlbFlush`, `LiveGuest`). A tagged pointer is a pair of a block number and a tag. The
  circular jump lists, hash chains, page lists, per-CPU jump caches and page bitmaps are pointer
  structures with the lists they stand for; `TbCache.Cache` ties them to the set of linked blocks;
  `Smc` adds memory, dirty flags and the TLB and proves that in every run every linked block's
  code equals current memory. `LiveGuest` puts this machine under migration: they share memory and
  dirty bytes, every step of the machine is a step of migration, and both invariants hold in every
  run (`LiveGuest.RunKeepsInv`).
* **The block layer** (`Iovec`, `BlockMerge`, `Multiwrite`, `BlockIo`, `BlockCommit`): merging of
  sorted write requests, counting of completions, byte access over sectors, committing an overlay.
* **AES** (`Gf256`, `Aes`, `AesTables`, `AesKey`, `AesBlock`, `AesCbc`, `AesReference`): `Aes` states
  FIPS 197 (sections 5.1, 5.2 and 5.3.5) on four-column states; the table-driven methods are proved
  equal to it for any pair of inverse substitution tables; decryption undoes encryption for every key
  size, block, and CBC message length. `AesReference` is the standard once more, byte by byte and
  without words or tables, and from the user's key to the ciphertext the code is proved equal to it
  (`AesReference.EncryptMessage`).
* **Bitmaps and wide arithmetic** (`Bitops`, `Bitmap`, `Mul64`): word-level searches against
  least-index and greatest-index specifications, the aligned area search, 128-bit products.
* **The newc archive** (`Cpio`, `CpioArchive`, `CpioFile`): parser and printer undo each other, and
  editing the console entry moves no byte.

Constants and small arithmetic that several modules share are in `Common`.

Six properties one might expect turn out not to hold for the code in general. In each case the
model keeps the code as it is, shows an input that fails, and proves exactly when the property holds:

* `multiwrite_merge` drops the tail of a request that a later, overlapping request ends before
  (`BlockMerge.ShorterRequestLosesTail`). `BlockMerge.MergeKeepsWritesExactly` says exactly when all
  writes are kept, for any driver and any vectors; `BlockMerge.SmallBatchKeepsWrites` says it in terms
  of the requests alone, and `BlockMerge.NoTailLost` gives a condition on the requests that is enough
  for every batch.
* `tlb_set_dirty` unprotects a virtual page in all MMU modes at once, so two modes that map it to
  different pages can break code coherence (`Smc.DisagreementGoesStale`). A step keeps the invariant
  exactly when it is safe, a condition on the state before it (`Smc.StepKeepsInvExactly`); a store puts
  coherence at risk exactly when it exposes a page with code (`Smc.ExposesExactly`), and being at risk
  means that some store makes a block stale (`Smc.AtRiskExactly`). Runs of safe steps stay coherent
  (`Smc.RunStaysCoherent`), and all runs of a guest whose modes agree, without marking of pages that
  hold code, are of that kind (`Smc.AgreeingRunStaysCoherent`).
  Such a store can also make migration lose a later one (`LiveGuest.UnsafeStoreLosesWrite`).
* `cpu_physical_memory_set_dirty` sets the code flag along with the others. That is safe exactly on
  pages without translated code (`Smc.MarkKeepsInvExactly`); any block on a page marked that way can go
  stale (`Smc.MarkedGoesStale`). The first stage of `ram_save_live` marks pages like this
  (`Smc.StageOneExactly`).
* `buffered_put_buffer` does not look at the error flag after its flush, so after a failed flush new
  bytes can overtake buffered ones (`BufferedFile.NewByteOvertakes`). `BufferedFile.PutInOrderExactly`
  says exactly when order is kept; it is in every run without an error (`BufferedFile.RunOps`).
* `ram_load` checks neither the offset of a page nor, for a page's data, that its block is known, so a
  record can write outside guest memory (`RamLoad.StrayRecord`). `RamLoad.RecordKeepsValid` says
  exactly which records do; the sender's never do (`Migration.RecordDecodes`).
* `bdrv_commit` overwrites its result when it opens a read-only backing file again, as backing files
  are, so a commit that failed can return 0 (`BlockCommit.FailureHidden`).
  `BlockCommit.CowDevice.Commit` says exactly when it returns 0: with a read-only backing file, when
  that opens again; otherwise when everything was copied and emptied.

Conventions: integers are unbounded and wrap-around is written out where the code relies on it;
bytes are integers below 256, or `bv8` in the cipher; clocks, the network, drivers and the guest
appear as parameters. Reading `hide F, G` at the start of a proof as "the bodies of F and G do not
matter here" is all that is needed to follow the proofs.

## Model

| member | source | states |
|---|---|---|
| `Bytes.Be64ThenMore` | qemu/savevm.c:645-677 | reading back eight big-endian bytes gives the number that was put and leaves what follows |
| `Bytes.Be64Layout` | qemu/savevm.c:637-649 | the eight bytes of a number, most significant first |
| `RamList.NextIsSuccessor` | qemu/arch_init.c:160-172 | the cursor that walks blocks and pages visits all pages in one cycle |
| `RamList.PageNoInjective` | qemu/cpu-all.h:892-910 | different cursors name different pages of guest memory, all in bounds |
| `RamSave.IsDupPage` | qemu/arch_init.c:95-108 | true exactly when all bytes of the page equal the given one |
| `RamSave.ScanStep` | qemu/arch_init.c:119-172 | a turn of the scan keeps "clean from the start to here", gets closer to the start, and coming round again means nothing is dirty |
| `RamSave.RamSender.SaveBlock` | qemu/arch_init.c:113-175 | sends nothing exactly when no page is dirty; else sends the first dirty page after the last one, with the record for it, and cleans that page only |
| `RamSave.SentCleansOnePage` | qemu/arch_init.c:131-134 | sending a page clears its migration flag and no other page's |
| `RamSave.SentShrinksDirtyPages` | qemu/arch_init.c:301-327 | each page sent makes the set of dirty pages smaller, so the flush loop ends |
| `RamSave.RamSender.MarkAllDirty` | qemu/arch_init.c:275-284 | at the start every page becomes dirty for migration and the scan has no history |
| `RamSave.RamSender.PutHeader` | qemu/arch_init.c:289-295 | the header is the total size and one name and size per block |
| `RamSave.RamSender.SavePages` | qemu/arch_init.c:301-327 | the bytes put are the records of the pages sent, in order; a limited call sends as many pages as the limit allows or all that are dirty, an unlimited one leaves nothing dirty |
| `RamSave.RamSender.SaveLive` | qemu/arch_init.c:251-336 | what each stage puts on the wire, how many pages it sends under the limit and what it does to the dirty flags; a cancel does nothing, stage 3 leaves no page dirty |
| `RamSave.RecordLayout` | qemu/arch_init.c:136-158 | the bytes of a page record: offset and flags in the first word, 0x20 for a block named before, 0x02 or 0x08 for the contents, then name and contents |
| `RamSave.HeaderLayout` | qemu/arch_init.c:289-295 | the bytes of the header: total size with flag 0x04, then length of name, name and size of each block |
| `RamSave.EosLayout` | qemu/arch_init.c:331-331 | the eight bytes that end a section |
| `RamLoad.RecordThenMore` | qemu/arch_init.c:377-455 | decoding a record does not depend on the bytes after it |
| `RamLoad.RecordShrinks` | qemu/arch_init.c:377-455 | every record takes bytes, so reading ends |
| `RamLoad.RecordKeepsValid` | qemu/arch_init.c:377-455 | a record writes outside guest memory exactly when its page lies past the end of its block or it carries data for a block that is not known; any other record keeps the receiver consistent and its block list, and changes at most one page |
| `RamLoad.PastTheBlockStrays` | qemu/arch_init.c:346-353 | every record for a page past the end of the remembered block writes outside it |
| `RamLoad.NoBlockStrays` | qemu/arch_init.c:441-449 | so does page data while no block is remembered |
| `RamLoad.StrayRecord` | qemu/arch_init.c:346-437 | a machine of one page and a record that does so |
| `RamLoad.DrainAppend` | qemu/arch_init.c:368-458 | draining a stream in two parts is draining it at once |
| `RamLoad.DrainSection` | qemu/arch_init.c:368-458 | reading up to an end-of-section mark is a prefix of draining the stream |
| `RamLoad.RamReceiver.HostFromStreamOffset` | qemu/arch_init.c:338-366 | a CONTINUE record uses the remembered block, any other names one; both refine the decoder, a block that is not found included |
| `RamLoad.NameStopsAtZero` | qemu/arch_init.c:355-361 | a zero byte inside a name ends it |
| `RamLoad.RamReceiver.SyncBlockList` | qemu/arch_init.c:394-418 | the size loop accepts exactly the block lists the decoder accepts |
| `RamLoad.RamReceiver.Load` | qemu/arch_init.c:368-458 | ram_load refines the decoder of one section: it succeeds, fails and strays exactly where the decoder does, with the same state and rest |
| `Migration.RecordDecodes` | qemu/arch_init.c:131-158 | whatever the receiver held, the record for a page, CONTINUE or not, makes its copy of that page right |
| `Migration.HeaderDecodes` | qemu/arch_init.c:289-295 | the receiver reads the header of any sender completely if it has the sender's blocks, and refuses it if it has not |
| `Migration.SizesDecode` | qemu/arch_init.c:394-418 | the size loop accepts any list of blocks exactly when the receiver has them all with these sizes, and then consumes exactly the list |
| `Migration.ReceivedPages` | qemu/arch_init.c:423-449 | a received page replaces the copy of that page and of no other |
| `Migration.GuestWritesKeepInv` | qemu/cpu-all.h:981-1010 | any writes of the guest and its devices that mark what they change and clear no mark keep the invariant |
| `Migration.GuestWriteKeepsInv` | qemu/cpu-all.h:981-1010 | in particular a write of one page, with all flags but the code flag set |
| `Migration.SendPageKeepsInv` | qemu/arch_init.c:113-175 | sending the next dirty page keeps the invariant |
| `Migration.StartEstablishesInv` | qemu/arch_init.c:265-298 | starting establishes the invariant, also after an earlier attempt |
| `Migration.StepKeepsInv` | qemu/arch_init.c:251-458 | every step of either side keeps the invariant |
| `Migration.RunKeepsInv` | qemu/arch_init.c:251-458 | the invariant holds in every state of every interleaving |
| `Migration.SendingKeepsInv` | qemu/arch_init.c:301-327 | so do the bytes of one whole call of ram_save_live |
| `Migration.LastStage` | qemu/arch_init.c:320-335 | the last stage leaves a stream that makes both RAMs equal |
| `Migration.SectionReturns` | qemu/arch_init.c:368-458 | the receiver returns from such a stream, and what is left is such a stream again |
| `Migration.LoadAll` | qemu/arch_init.c:368-458 | calling ram_load until nothing is left drains the stream |
| `Migration.CallKeepsInv` | qemu/arch_init.c:251-336 | one call of ram_save_live, whatever pages it sends, keeps the invariant and leaves a stream that ends a section |
| `Migration.SectionKeepsInv` | qemu/arch_init.c:368-458 | one call of ram_load keeps the invariant |
| `Migration.Finish` | qemu/arch_init.c:251-458 | after any run that begins with a start on machines with the same blocks, a stopped guest, the last stage and a receiver that reads everything, both RAMs are equal |
| `Migration.Migrate` | qemu/arch_init.c:251-458 | so are they after stage 1 on such machines, guest writes, calls with stage 2 and calls of ram_load in any order, and stage 3; each of these does exactly what it should to both machines and the stream |
| `BufferedFile.QemuFileBuffered.Append` | qemu/buffered_file.c:48-70 | the data goes behind what is buffered; the size never exceeds the capacity |
| `BufferedFile.FlushKeepsStream` | qemu/buffered_file.c:72-107 | a flush leaves delivered bytes followed by buffered bytes the same, also when the channel fails or blocks |
| `BufferedFile.FlushingMeans` | qemu/buffered_file.c:72-107 | a flush goes on while the channel takes bytes and stops at the first reply that takes none: frozen for -EAGAIN, failed for any other |
| `BufferedFile.PuttingMeans` | qemu/buffered_file.c:124-157 | so does a put, which also stops once more than the limit has gone out in the period |
| `BufferedFile.PutInOrderExactly` | qemu/buffered_file.c:109-167 | a put appends its data to that stream exactly when the flush freezes, or the put does not fail and no byte overtakes a different one that the flush left; a condition on the channel's next replies, the buffered bytes and the transfer limit before the call |
| `BufferedFile.NewByteOvertakes` | qemu/buffered_file.c:109-167 | a channel that fails once and then takes a byte: the new byte goes out before the buffered one |
| `BufferedFile.QemuFileBuffered.Flush` | qemu/buffered_file.c:72-107 | delivers what the channel takes, keeps the rest, and notes a frozen or failed channel |
| `BufferedFile.QemuFileBuffered.PutDirect` | qemu/buffered_file.c:124-157 | the prefix of the data the channel takes within the limit goes out and is counted |
| `BufferedFile.QemuFileBuffered.PutBuffer` | qemu/buffered_file.c:109-167 | what a put delivers, keeps and returns, with and without an error; bytes stay in order exactly in the case stated above |
| `BufferedFile.QemuFileBuffered.RateTick` | qemu/buffered_file.c:231-251 | a tick starts a new period with nothing counted and flushes; it does nothing while frozen or in error, and loses nothing |
| `BufferedFile.StopMeans` | qemu/buffered_file.c:192-206 | over the limit no byte of a put goes out directly; when the file does not say stop one does, or output freezes or fails; a put exceeds the limit by at most its own length |
| `BufferedFile.PutUntilStop` | qemu/arch_init.c:301-311 | a sender that puts chunks until it is told to stop ends early only when output is frozen or over the limit, exceeds the limit by at most one chunk, and loses nothing |
| `BufferedFile.RunOps` | qemu/buffered_file.c:48-251 | in every run without an error, delivered followed by buffered is the concatenation of all accepted data |
| `QemuFile.WriteFile.Fflush` | qemu/savevm.c:438-453 | what was collected goes to the file below, and without an error stays in order |
| `QemuFile.WriteFile.Put` | qemu/savevm.c:490-511 | without an error everything put is on its way in order, and what is still collected is the remainder of whole blocks of 32 KB |
| `QemuFile.WriteFile.Close` | qemu/buffered_file.c:169-190 | closing flushes until the channel has taken all bytes, in order, or fails or answers no more |
| `Transfer.SectionRest` | qemu/arch_init.c:368-458 | a call of ram_load leaves a tail of the stream |
| `Transfer.SectionThenMore` | qemu/arch_init.c:368-458 | a section that has arrived reads the same whatever is still to come |
| `Transfer.One` | qemu/arch_init.c:251-458 | what a guest write, a stage, a tick, a notice of the channel and a call of ram_load do; without an error, the bytes delivered and not yet read, pending and collected stay the wire of a migration in order |
| `Transfer.Read` | qemu/arch_init.c:368-458 | the receiver reads a section that has arrived while later bytes are still on their way |
| `Transfer.Migrate` | qemu/arch_init.c:251-458 | a whole migration over the file: in order in every run without an error, and equal RAMs when the channel has taken everything |
| `JumpLists.PushOk` | qemu/exec-all.h:248-260 | a slot put in front of a list keeps all lists well formed |
| `JumpLists.RemoveOk` | qemu/exec.c:823-851 | so does a slot taken out at any position |
| `JumpLists.Jumps.AddJump` | qemu/exec-all.h:248-260 | patches the jump and lists it with its target; a slot that is in a list already stays as it is |
| `JumpLists.Jumps.JmpRemove` | qemu/exec.c:823-851 | the walk round the circle ends at the slot, which leaves the list it is in |
| `JumpLists.Jumps.ResetIncoming` | qemu/exec.c:897-909 | every jump to the block goes back to the exit of its own block and its list is empty |
| `JumpLists.Jumps.Invalidate` | qemu/exec.c:888-909 | afterwards nothing jumps to the block, it is in no list, and all other jumps are as before |
| `Unchain.ResetJumpRecursive2` | qemu/exec.c:1336-1373 | takes the jump out and unchains its target in turn; ends on any graph, cycles included, because linked slots get fewer |
| `Unchain.ResetJumpRecursive` | qemu/exec.c:1375-1379 | afterwards the block has no jumps, nor have the targets of the jumps it lost, and the lists stay well formed |
| `Unchain.UnchainedExactly` | qemu/exec.c:1336-1379 | that amounts to: blocks reachable in the original graph lose their jumps and every other block keeps its own |
| `Unchain.UnlinkTb` | qemu/exec.c:1618-1636 | the same, stated for the whole operation |
| `Chains.ChainTable.Remove` | qemu/exec.c:792-821 | the block leaves its chain; the other elements keep their order, other chains are untouched |
| `Chains.ChainTable.MoveToFront` | qemu/cpu-exec.c:125-130 | the found block becomes first and the others keep their order |
| `Chains.MoveOk` | qemu/cpu-exec.c:125-130 | the three pointer writes keep every chain well formed |
| `CodeBitmap.SetBits` | qemu/exec.c:914-939 | sets exactly the bits of the range, across bytes |
| `CodeBitmap.HitIsExact` | qemu/exec.c:1132-1137 | the byte test of the fast path finds a bit exactly when one of the range is set |
| `TbCache.OverlapIsCoverage` | qemu/exec.c:1042-1056 | the interval test of the range scan says whether the block has a code byte in the range, two-page blocks included |
| `TbCache.CoversIsCode` | qemu/exec.c:1042-1056 | the intervals the scan computes are exactly the places of the code bytes on both pages |
| `TbCache.DropIndexed` | qemu/exec.c:858-912 | a block that left every part leaves all indexes right |
| `TbCache.LinkIndexed` | qemu/exec.c:1265-1301 | so does a block that entered every part |
| `TbCache.BitmapBuilt` | qemu/exec.c:941-967 | a bit marked from the page list is set exactly when some linked block has code at that byte |
| `TbCache.WalkRemoves` | qemu/exec.c:1038-1100 | removing the current block leaves the walk over the page list where it was |
| `TbCache.EndOfWalk` | qemu/exec.c:1038-1100 | at the end of the list exactly the blocks that do not overlap are left |
| `TbCache.FastSkipsExactly` | qemu/exec.c:1118-1142 | the fast path skips exactly when the range scan would remove nothing |
| `TbCache.EmptyListMeansNoCode` | qemu/exec.c:1206-1261 | a page list is empty exactly when no linked block lies on the page |
| `TbCache.Cache.PhysInvalidate` | qemu/exec.c:858-912 | the block is gone from hash chain, page lists, jump lists and every CPU's jump cache, its pages' bitmaps and write counts go, and nothing else does |
| `TbCache.Cache.Flush` | qemu/exec.c:725-750 | no block is linked; hash chains, page lists, jump lists, jump caches, code bitmaps and write counts are empty |
| `TbCache.Cache.AllocPage` | qemu/exec.c:1206-1261 | the block becomes first of the page's list; says whether the page had no code before; descriptors appear for all pages of the leaf |
| `TbCache.Cache.LinkPage` | qemu/exec.c:1265-1301 | the block is in all parts; names the pages to protect, and the pages that now have descriptors |
| `TbCache.Cache.BuildPageBitmap` | qemu/exec.c:941-967 | the page has an exact bitmap and nothing else changed |
| `TbCache.Cache.InvalidatePhysPageRange` | qemu/exec.c:1012-1115 | exactly the blocks with code in the range are gone; the page is unprotected exactly when the CPU writes to a page with a descriptor and no code is left on it; the write count and, from ten writes of the CPU on, the bitmap |
| `TbCache.FastUnprotects` | qemu/exec.c:1118-1142 | when no code is left on the page, the fast path has scanned it exactly if there was code before or there was no bitmap |
| `TbCache.Cache.InvalidatePhysPageFast` | qemu/exec.c:1118-1142 | the same blocks as the range scan, with or without a bitmap; the page is unprotected exactly when no code is left and it was scanned |
| `TbCache.Cache.FindSlow` | qemu/cpu-exec.c:82-135 | finds a linked block for the CPU state if and only if there is one, moves it to the front of its hash chain and enters it in the jump cache |
| `TbCache.Cache.FindFast` | qemu/cpu-exec.c:137-156 | a hit is a linked block for the CPU state, the right one when the entry was made under the present mapping; a miss means there is none |
| `Smc.StoreKeepsCurrent` | qemu/exec.c:3310-3368 | a store outside a block's bytes leaves its translation current |
| `Smc.PokeStores` | qemu/exec.c:3310-3368 | a store changes exactly its bytes of guest memory |
| `Smc.TranslateKeepsInv` | qemu/exec.c:969-1005 | a new translation with its pages protected keeps the invariant |
| `Smc.ResetKeepsInv` | qemu/exec.c:2063-2109 | resetting dirty flags takes fast writes away wherever it must |
| `Smc.FastStoreKeepsInv` | qemu/softmmu_template.h:225-276 | a store that skips all checks keeps the invariant |
| `Smc.SlowStoreMemory` | qemu/exec.c:3310-3368 | a store through the not-dirty path, which may unprotect the page, does right by memory, blocks and flags |
| `Smc.SlowStoreExactly` | qemu/exec.c:3310-3368 | with its change to the TLB it keeps the invariant exactly when it does not set the last flag of its page, or the other entries it unprotects map the same page or one whose flags are all set |
| `Smc.DmaWriteKeepsInv` | qemu/exec.c:3900-3914 | so does a device's write |
| `Smc.SetDirtyExactly` | qemu/exec.c:2189-2206 | tlb_set_dirty is safe exactly when every entry it changes maps a page whose flags are all set |
| `Smc.FillKeepsInv` | qemu/exec.c:2234-2335 | a TLB fill gives fast writes only to pages whose flags are all set |
| `Smc.MarkKeepsInvExactly` | qemu/cpu-all.h:981-984 | setting all flags of a page keeps the invariant exactly when the page has no code |
| `Smc.AtRiskExactly` | qemu/softmmu_template.h:225-276 | some store straight to memory makes a block stale exactly when a fast TLB entry maps a page with code |
| `Smc.InvIsNotAtRisk` | qemu/exec.c:2046-2054 | the invariant excludes that |
| `Smc.ExposesExactly` | qemu/exec.c:3310-3368 | a slow store brings that about exactly when it sets the last flag of its page and another entry changed along with its own maps a page that keeps code, all read off the state before |
| `Smc.StageOneExactly` | qemu/arch_init.c:275-284 | the first stage of ram_save_live keeps the invariant exactly when no page with code lacks the migration flag |
| `Smc.DisagreementGoesStale` | qemu/exec.c:2189-2206 | two modes disagree, the first store is not safe, and after it some store makes a linked block stale |
| `Smc.MarkedGoesStale` | qemu/cpu-all.h:981-984 | for every block and every page of it in every good state: marking the page, one TLB fill and one store of a byte make that block stale |
| `Smc.StepKeepsInvExactly` | qemu/exec.c:858-3914 | translation, invalidation, flushes, TLB fills, resets and DMA always keep the invariant; a store and a marked page exactly when safe in the state before |
| `Smc.RunStaysCoherent` | qemu/exec.c:858-3914 | in every run of safe steps every linked block's code equals current memory |
| `Smc.AgreeingStep` | qemu/exec.c:2189-2335 | when the modes of a CPU agree every step but marking a page with code is safe, and they go on agreeing unless a fill disagrees |
| `Smc.AgreeingRunStaysCoherent` | qemu/exec.c:858-3914 | so with fills that agree and no such marking every run is coherent |
| `LiveGuest.EmulatorMarks` | qemu/exec.c:858-3914 | in a good state no step of the emulator changes a page without its migration flag set afterwards, direct stores included, and none clears a migration flag |
| `LiveGuest.StoreMarksItsPage` | qemu/exec.c:3310-3368 | a store marks its page and touches no other page and no other flags |
| `LiveGuest.StepRefines` | qemu/arch_init.c:113-336 | every step of a machine under migration is a step of migration; sending a page clears its flag as the emulator does it |
| `LiveGuest.StepKeepsInvExactly` | qemu/arch_init.c:113-336 | a step keeps the invariants of emulator and migration exactly when it is safe in the state before |
| `LiveGuest.RunKeepsInv` | qemu/arch_init.c:113-336 | in every run of safe steps that begins a migration, translated code is current and every page is dirty or will be right |
| `LiveGuest.Finish` | qemu/arch_init.c:320-335 | so the last stage after such a run makes both memories equal |
| `LiveGuest.DirectStoreExactly` | qemu/softmmu_template.h:225-276 | migration keeps a store straight to memory exactly when the page is dirty already or does not change |
| `LiveGuest.UnsafeStoreLosesWrite` | qemu/exec.c:2189-2206 | a store that is not safe, after which migration loses the next one |
| `Smc.Emulator.TlbSetDirty` | qemu/exec.c:2197-2206 | the loop over the modes unprotects exactly the entries of the virtual page |
| `Smc.Emulator.NotDirtyWrite` | qemu/exec.c:3310-3368 | refines the slow store step; memory holds the stored bytes and no other change, all flags but the code flag are set, and the machine stays valid exactly when the store is safe in the state before |
| `Smc.Emulator.SetDirtyPage` | qemu/cpu-all.h:981-984 | refines the marking step, with its condition |
| `Smc.Emulator.Store` | qemu/softmmu_template.h:225-276 | refines the store step, fast or slow, with the same statements about memory and flags and the same condition |
| `Smc.Emulator.DmaPage` | qemu/exec.c:3900-3914 | refines the DMA step; memory holds the bytes and no other change |
| `Smc.Emulator.MaskDirtyRange` | qemu/cpu-all.h:992-1005 | clears the flags of exactly the pages of the range |
| `Smc.Emulator.TlbResetDirty` | qemu/exec.c:2063-2108 | the loops over CPUs, modes and indexes take fast writes from exactly the entries that map a page of the range |
| `Smc.Emulator.ResetDirtyPages` | qemu/exec.c:2076-2109 | refines the reset step |
| `Smc.Emulator.TlbSetPage` | qemu/exec.c:2234-2335 | refines the fill step: direct stores exactly for a page whose flags are all set |
| `Smc.Emulator.AllocBlock` | qemu/exec.c:659-670 | gives the next block number, which is not linked; all blocks are flushed when there is no room and none otherwise |
| `Smc.Emulator.GenCode` | qemu/exec.c:969-1005 | a flush exactly when there is no room and then a translation of what memory holds now |
| `TlbFlush.AddLargePage` | qemu/exec.c:2210-2229 | the widening loop ends at the first size that works; the region covers the new large page and all it covered before |
| `TlbFlush.JmpCacheFlushed` | qemu/exec.c:1955-1968 | no block with a byte on the page stays in the jump cache, though it is filed under the page it starts on |
| `TlbFlush.JmpCacheKept` | qemu/exec.c:1955-1968 | blocks filed under other pages stay |
| `TlbFlush.HashDigits` | qemu/exec-all.h:162-175 | the hash, digit by digit: six address digits against the six above them, for the page and for the offset |
| `TlbFlush.Tlb.Flush` | qemu/exec.c:1979-2002 | TLB and jump cache are empty |
| `TlbFlush.Tlb.FlushPage` | qemu/exec.c:2004-2044 | nothing for the page survives; if it lies in a large page installed since the last flush everything goes, and outside the region nothing else goes |
| `TlbFlush.Tlb.SetPage` | qemu/exec.c:2234-2255 | installs the entry and remembers a large page in the smallest region that covers it |
| `Iovec.PiecesAreSlice` | qemu/cutils.c:178-209 | the pieces copied are exactly the asked-for stretch of the source |
| `Iovec.QemuIovec.Copy` | qemu/cutils.c:178-209 | appends exactly that stretch |
| `Iovec.QemuIovec.Concat` | qemu/cutils.c:211-214 | appends the first bytes of the source |
| `BlockMerge.MergedData` | qemu/block.c:2342-2357 | the merged vector is the first request cut at the second, zeros for a gap, then all of the second |
| `BlockMerge.StepWritten` | qemu/block.c:2313-2366 | what one turn does to the byte written at any position |
| `BlockMerge.MergeKeepsVectorsShort` | qemu/block.c:2332-2334 | no merged vector is longer than 1024 elements if none was |
| `BlockMerge.MergeKeepsWrites` | qemu/block.c:2303-2372 | with ends that do not decrease every written byte stays, and only gaps the driver agreed to become zero |
| `BlockMerge.MergeExactly` | qemu/block.c:2303-2372 | for any sorted requests, driver and vectors: a position keeps its byte unless some merge cuts it off or fills it with no later write, and then what the last such merge leaves is there |
| `BlockMerge.MergeKeepsWritesExactly` | qemu/block.c:2303-2372 | merging keeps all writes if and only if every such leftover equals the byte written |
| `BlockMerge.NoTailLost` | qemu/block.c:2303-2372 | a position where no request ends before its predecessor without a later write keeps its byte, or becomes a zero in a gap the driver agreed to |
| `BlockMerge.SmallBatchExactly` | qemu/block.c:2303-2372 | without agreed gaps and below the element limit, a position is lost exactly when it lies in a tail cut off and not written again |
| `BlockMerge.SmallBatchKeepsWrites` | qemu/block.c:2303-2372 | such a batch keeps all writes if and only if every tail cut off is written again later |
| `BlockMerge.ShorterRequestLosesTail` | qemu/block.c:2342-2357 | two requests whose merge loses written data under any driver |
| `BlockMerge.SortRequests` | qemu/block.c:2282-2308 | the same requests, by start sector |
| `BlockMerge.MultiwriteMerge` | qemu/block.c:2303-2372 | sorts and rewrites the request array in place; what remains is the merge of a sorted permutation of the requests, with vectors no longer than the host allows |
| `Multiwrite.FirstNegativeIsFirst` | qemu/block.c:2269-2272 | the error kept is the first negative result, or 0 if there is none |
| `Multiwrite.MultiwriteCb.Complete` | qemu/block.c:2265-2280 | counts down; the users' callbacks run when the count reaches zero, with that error |
| `Multiwrite.MultiwriteCb.Submit` | qemu/block.c:2419-2468 | keeps one count more than is outstanding until the loop ends, whatever completes early or is refused |
| `Multiwrite.AioMultiwrite` | qemu/block.c:2388-2474 | after 0 the callbacks have run exactly if nothing is outstanding; after -1 none runs and every request carries -EIO, or -ENOMEDIUM without a medium |
| `Multiwrite.RunMultiwrite` | qemu/block.c:2251-2280 | after a return of 0 and all late completions each callback has run exactly once, with the first negative result |
| `BlockIo.BlockDevice.SetDirty` | qemu/block.c:937-963 | marks or clears exactly the chunks the range touches and keeps the count right; an empty range touches the chunk of its start only when that is inside the chunk or chunk 0 starts there |
| `BlockIo.BlockDevice.Write` | qemu/block.c:971-991 | changes exactly the bytes of the sectors or nothing, and marks exactly their chunks |
| `BlockIo.BlockDevice.Pread` | qemu/block.c:993-1034 | returns exactly the slice of bytes; fails exactly when it leaves the device |
| `BlockIo.BlockDevice.Pwrite` | qemu/block.c:1038-1085 | changes exactly the slice of bytes; a failure leaves a beginning of the data written; exactly the chunks of the bytes written are marked |
| `BlockIo.WriteThenRead` | qemu/block.c:993-1085 | what was written reads back, and every other byte reads as before |
| `BlockIo.CountIsMarks` | qemu/block.c:937-963 | the count of dirty chunks is the number of marks |
| `BlockCommit.CowDevice.CopyDown` | qemu/block.c:814-829 | the copy keeps the guest's view, returns 0 exactly when every allocated sector lies on the backing file and can be transferred, and then the backing file holds the view |
| `BlockCommit.CowDevice.Commit` | qemu/block.c:759-863 | the guest's view never changes; the early refusals; a read-only backing file makes the result that of opening it again, whatever happened before, and otherwise 0 means copied and emptied; when the backing file holds the view and the overlay is emptied |
| `BlockCommit.FailureHidden` | qemu/block.c:843-860 | one allocated sector and an empty backing file: 0 is returned and the sector is not in the backing file |
| `Gf256.XTimeReduces` | qemu/aes.c:46-58 | the doubling used for the table formulas is multiplication by {02} modulo the AES polynomial |
| `Gf256.ColumnsInverse` | qemu/aes.c:46-58 | the coefficients of the Td tables invert those of the Te tables |
| `Gf256.MixColumnUndone` | qemu/aes.c:46-58 | InvMixColumns undoes MixColumns on every column |
| `Aes.InvRoundsTrack` | qemu/aes.c:1076-1261 | after each round the inverse cipher is where the cipher was before its matching row shift |
| `Aes.CipherUndone` | qemu/aes.c:885-1261 | the equivalent inverse cipher with the derived schedule undoes the cipher, for every schedule and state |
| `Aes.BlockUndone` | qemu/aes.c:885-1261 | the same on blocks of sixteen bytes |
| `AesTables.TeRoundIsRound` | qemu/aes.c:980-1036 | a round of table lookups is a round of section 5.1 of FIPS 197 |
| `AesTables.TdRoundIsInvRound` | qemu/aes.c:1173-1226 | a round of decryption lookups is an inverse round of section 5.3.5 |
| `AesTables.LastRounds` | qemu/aes.c:1229-1260 | the masked lookups of the last rounds leave out the column step |
| `AesTables.InvMixByTablesIsInvMixColumn` | qemu/aes.c:854-876 | a decryption lookup at a substituted byte is InvMixColumns alone |
| `AesKey.RconTable` | qemu/aes.c:722-726 | the ten round constants are the powers of {02} |
| `AesKey.ByTables` | qemu/aes.c:760-766 | the masked Te4 lookups are RotWord, SubWord and the round constant |
| `AesKey.AesKey.Expand128` | qemu/aes.c:756-773 | fills the words of the key expansion of section 5.2 |
| `AesKey.AesKey.Expand192` | qemu/aes.c:776-796 | the same for 192 bits |
| `AesKey.AesKey.Expand256` | qemu/aes.c:799-825 | the same for 256 bits |
| `AesKey.AesKey.SetEncryptKey` | qemu/aes.c:731-827 | the schedule is the key expansion; -1 and -2 exactly for a missing key and another key size, with nothing changed |
| `AesKey.AesKey.ReverseRoundKeys` | qemu/aes.c:846-852 | the in-place swaps put the round keys in reverse order |
| `AesKey.AesKey.SetDecryptKey` | qemu/aes.c:832-878 | the schedule is the one section 5.3.5 derives |
| `AesBlock.Encrypt` | qemu/aes.c:885-1070 | two rounds per turn compute the cipher with the key's schedule |
| `AesBlock.Decrypt` | qemu/aes.c:1076-1261 | two rounds per turn compute the equivalent inverse cipher |
| `AesCbc.CbcUndone` | qemu/aes.c:1265-1314 | CBC decryption returns the plaintext for every length, a partial last block included |
| `AesCbc.CbcBlock` | qemu/aes.c:1276-1294 | each ciphertext block is the cipher of its plaintext added to the block before |
| `AesCbc.CbcEncrypt` | qemu/aes.c:1276-1294 | writes exactly the CBC ciphertext and leaves the last block in the vector, also in place |
| `AesCbc.CbcDecrypt` | qemu/aes.c:1295-1313 | writes exactly the plaintext and not a byte more, also in place; the vector left is the last whole ciphertext block, or for a partial last block the decryption of the padded one |
| `AesCbc.CbcCrypt` | qemu/aes.c:1265-1314 | both directions, vector included, also in place |
| `AesCbc.CbcRoundTrip` | qemu/aes.c:731-1314 | setting both keys, encrypting and decrypting in one buffer returns the message, for every key of 128, 192 or 256 bits |
| `AesReference.ExpansionIsStandard` | qemu/aes.c:731-827 | each word of the schedule is four bytes of the key expansion of section 5.2, computed byte by byte from the key |
| `AesReference.CipherIsStandard` | qemu/aes.c:885-1070 | the cipher on words is the cipher of section 5.1 on sixteen bytes, with products in GF(2^8) by any coefficient |
| `AesReference.EncryptsAsStandard` | qemu/aes.c:731-1070 | both together, for every key size |
| `AesReference.CbcIsStandard` | qemu/aes.c:1276-1294 | each ciphertext block is the standard's encryption of the plaintext, filled up with zeros, added to the block before |
| `AesReference.EncryptMessage` | qemu/aes.c:731-1294 | the same for the code, from the key the user gives to the ciphertext |
| `Bitops.Ffsl` | qemu/bitops.h:31-61 | the least set bit of a non-zero word |
| `Bitops.Flsl` | qemu/bitops.h:69-99 | the greatest set bit of a non-zero word |
| `Bitops.Ffz` | qemu/bitops.h:107-110 | the least clear bit of a word that has one |
| `Bitops.FindNextBit` | qemu/bitops.c:21-64 | the least set index from the offset, or size when there is none |
| `Bitops.FindNextZeroBit` | qemu/bitops.c:70-113 | the least clear index from the offset, or size when there is none |
| `Bitops.FindLastBit` | qemu/bitops.c:115-143 | the greatest set index, or size when there is none |
| `Bitmap.BitmapSet` | qemu/bitmap.c:160-178 | exactly the bits of the range become set |
| `Bitmap.BitmapClear` | qemu/bitmap.c:180-198 | exactly the bits of the range become clear |
| `Bitmap.AlignsUp` | qemu/bitmap.c:200-200 | adding and masking a power of two less one gives the next multiple |
| `Bitmap.AlignedIsMultiple` | qemu/bitmap.c:200-200 | zero low digits mean a multiple of the power of two |
| `Bitmap.MultipleIsAligned` | qemu/bitmap.c:200-200 | and the other way round |
| `Bitmap.FindNextZeroArea` | qemu/bitmap.c:214-237 | the search ends; for nr > 0 it returns the least aligned index from start with nr clear bits inside size, or a value past size exactly when there is none; for nr = 0 the next clear bit, aligned |
| `Mul64.Add128` | qemu/host-utils.c:34-41 | addition modulo 2^128, carry included |
| `Mul64.Neg128` | qemu/host-utils.c:43-48 | negation modulo 2^128 |
| `Mul64.MulU64` | qemu/host-utils.c:50-74 | the exact product, from 32-bit limbs |
| `Mul64.MulS64` | qemu/host-utils.c:86-103 | the exact two's-complement product, the least value included |
| `Cpio.HexRoundTrip` | buildroot/mkbiffrd.py:37-41 | a printed number is lower-case digits and reads back |
| `Cpio.HexReprint` | buildroot/mkbiffrd.py:37-41 | digits read and printed are the same exactly when they were lower case |
| `Cpio.HexPlaces` | buildroot/mkbiffrd.py:37-38 | each place of a printed number holds its hexadecimal digit |
| `Cpio.EntryRoundTrip` | buildroot/mkbiffrd.py:43-97 | a printed entry parses back and the parser stops where it ends, whatever follows |
| `Cpio.EntryReprint` | buildroot/mkbiffrd.py:43-97 | a parsed entry prints to the same bytes exactly when its header was in lower case; the length is always the same |
| `Cpio.EntryLayout` | buildroot/mkbiffrd.py:77-97 | where each field, the name and the contents of an entry stand |
| `Cpio.EntryAligned` | buildroot/mkbiffrd.py:62-73 | header and name, and the contents, take multiples of four bytes |
| `CpioArchive.ArchiveRoundTrip` | buildroot/mkbiffrd.py:100-138 | parsing what was written gives back all entries up to the first trailer, and the tail |
| `CpioArchive.ArchiveReprint` | buildroot/mkbiffrd.py:100-138 | writing a parsed archive reproduces it byte for byte exactly when its headers are in lower case; its last entry, and no other, is named TRAILER!!! |
| `CpioArchive.ConsoleBytes` | buildroot/mkbiffrd.py:117-129 | turning an entry into the console device moves no byte and changes none outside its three device fields |
| `CpioArchive.ConsoleIsNamed` | buildroot/mkbiffrd.py:119-121 | the console entry is the one whose name without padding is dev/console |
| `CpioArchive.ConsoleInArchive` | buildroot/mkbiffrd.py:122-126 | its mode is printed as 00002180 and its device numbers as 00000005 and 00000001 |
| `CpioArchive.ParsedIsSmall` | buildroot/mkbiffrd.py:40-60 | parsed fields fit the eight places they are printed in |
| `CpioFile.ReadPadded` | buildroot/mkbiffrd.py:62-73 | a read and its padding loop take the padded length, short reads at the end of the file included |
| `CpioFile.ReadEntry` | buildroot/mkbiffrd.py:43-75 | the reader refines the parser: same entry, same rest, same failures |
| `CpioFile.Archive.Load` | buildroot/mkbiffrd.py:100-109 | refines the archive parser |
| `CpioFile.Archive.SetOwner` | buildroot/mkbiffrd.py:112-115 | changes owner and group of every entry and nothing else |
| `CpioFile.Archive.AddConsoleDevice` | buildroot/mkbiffrd.py:117-129 | makes the first console entry, and no other, the character device 5:1; fails exactly when there is none |
| `CpioFile.Archive.WriteAs` | buildroot/mkbiffrd.py:132-138 | writes all entries and the padding |
| `CpioFile.BiffInitrd` | buildroot/mkbiffrd.py:284-289 | succeeds exactly when the archive parses and has a console entry; the length stays, the entry is the character device 5:1, and with lower-case headers only its device fields differ |

## Left out

- Smc.RunStaysCoherent: the stores it covers exclude a store to the block that is running (restart and longjmp), stl_phys_notdirty, watchpoints, MMIO and subpages.
- Smc.Emulator.GenCode: a block's two physical pages are taken to differ.
- TbCache.Cache.FindFast: that cached entries belong to the present mapping is a hypothesis; TlbFlush proves what flushing removes from the jump cache, but the guest's page tables are not part of this model.
- TbCache.Cache.PhysInvalidate: only the call with page address -1; the variant that leaves one page list to its caller is not modelled. The jump-cache hash is any function there; the real one is in TlbFlush.
- Unchain.UnlinkTb: the lock that guards it against a running CPU is not modelled.
- BlockMerge.MultiwriteMerge: requests with equal start sectors keep their order here, where the C library may give any; the other results hold for every sorted order. The handing of merged requests to Multiwrite.AioMultiwrite is not modelled.
- BlockIo.BlockDevice.Write: growable devices, for which the bounds check is skipped and the driver decides what lies past the end, are not modelled.
- BlockIo.BlockDevice.Pread: the same.
- BlockIo.BlockDevice.Pwrite: the same.
- BlockCommit.CowDevice.Commit: opening the backing file and bdrv_make_empty are parameters, and a bdrv_make_empty that fails leaves the overlay as it was.
- Iovec.QemuIovec.Copy: capacity and reallocation of the vector are not modelled.
- AesKey.AesKey.SetEncryptKey: the table literals are not in the model; the tables are given by formula over any inverse pair of substitution tables.
- Bitmap.FindNextZeroArea: sums that wrap around 64 bits are excluded.
- Bitmap.BitmapSet: negative start or length, and bitmaps beyond 2^31 bits, are excluded.
- Cpio.EntryRoundTrip: C2P evaluates its eight characters as a Python expression; the model takes hexadecimal digits and treats anything else as an error. A padding loop that meets the end of the file never ends in the script; the model returns an error there.
- Migration.Finish: block hot-plug, version 3 streams, savevm section headers and the bandwidth estimate are not modelled; the order of blocks is a parameter, since any order gives the result.
- RamSave.RamSender.SaveLive: the returned estimate, which needs the clock, and a dirty-bitmap sync that fails are not modelled.
- RamLoad.RamReceiver.Load: -EINVAL and -EIO are one outcome; nothing is said about memory after a stray write, and a name cut short by the end of the stream counts as not found.
- BufferedFile.QemuFileBuffered.PutBuffer: the put_ready callback after an empty put is not modelled.
- QemuFile.WriteFile.Close: waiting for the channel is the channel's next answer; the closing of the channel itself is not modelled.
- LiveGuest.StepRefines: every page of guest memory belongs to a block of the RAM list.
- BufferedFile.QemuFileBuffered.RateTick: closing the file on an error and the put_ready callback are not modelled.
- BufferedFile.PutUntilStop: the chunks are what QEMUFile passes on at once; Transfer takes the answers of the rate limiter as a number of pages instead.
- TbCache.Cache.FindSlow: a miss is returned to the caller; the translation then made is Smc.Emulator.GenCode.
- Smc.StageOneExactly: translated code lies in the blocks of the RAM list.
- CpioFile.ReadPadded: returns an error at the end of the file where the script never ends.
- CpioFile.ReadEntry: header fields are hexadecimal digits, where the script evaluates an expression.
- tb_free, tb_find_pc, page protection for user-mode emulation and the user-mode page flags.
- Block migration: its rate limiting drops queued blocks at the last stage, so there is no end-to-end result to state.
- The unrolled variant of the AES rounds, which is not compiled.
- The remaining bitmap operations (and, or, equality) and single-bit operations.
- Console, terminal, disassembler, Bluetooth, option parsing, display front ends and build scripts.
