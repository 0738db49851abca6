# Samepage merging and the FAT/bitmap mkfs of an xv6 teaching kernel

This project is a Dafny model of two parts of an xv6-based RISC-V teaching
kernel, with proofs about that model.

**Kernel samepage merging (`kernel/ksm.c`).** The `ksm()` system call walks
the page tables of every process except pids 1 and 2 and the caller, and
hashes every valid page.
- A page whose hash is the zero page's is remapped onto the zero page.
- Any other page is recorded in a table of up to `NMLIST` merge slots, or
  joined to a slot with the same hash. Joining frees the page and remaps
  its entry, write-protected, onto the slot's page. Bit 8 of the entry
  remembers that it used to be writable.
- At the end, slots that were never shared are cleared.

The model has two layers:
- `KsmSpec` (`ksm_spec.dfy`) gives pure functions over one state value:
  the slot table, the zero-page record, the page-table entry words and the
  pages given to `kfree`.
- `Ksm.KsmState` (`ksm.dfy`) is a class whose fields are the C globals. Its
  methods update the slot array and the entry words in place, and each is
  proved to compute exactly its `KsmSpec` function.

`KsmProps` (`ksm_props.dfy`) proves what a sweep guarantees:
- the table invariant: at most 16 mappings per slot, distinct backing pages,
  none of them the zero page;
- the counters it reports;
- which entries it may touch: no entry gains write permission, and every
  entry it rewrites is read-only;
- a concrete two-process merge.

**The file-system image builder (`mkfs/mkfs.c`).** It exists in two builds:
- the classic one, with a free-block bitmap and inodes holding direct and
  indirect block addresses;
- the FAT one (compiled with `SNU`), with a file allocation table, a free
  list threaded through it, and files stored as chains.

The model covers:
- byte order (`MkfsCodec`);
- the layout arithmetic of `main` (`MkfsLayout`);
- the inode block map and its invariant (`MkfsInode`);
- the FAT (`MkfsFat`);
- the chunking of `iappend` (`MkfsCopy`);
- the class `Mkfs.Image`. It holds the image as an array of blocks, and its
  methods are `ialloc`, both `balloc`s, `inum2fat`, `getfreeblk` and both
  `iappend`s.

A read past the end of the image makes mkfs die. The methods report this
with `ok == false`.

## Model

| member | source | states |
|---|---|---|
| PageTable.Remap | kernel/ksm.c:123-126 | the remapped entry points at the shared page, is not writable, has bit 8 set if the old entry was writable or had it, and keeps the valid bit and every other flag |
| PageTable.Protect | kernel/ksm.c:113-116 | the representative entry keeps its page, loses write permission, and gets bit 8 when it was writable or already had bit 8 |
| KsmSpec.FirstJoinable | kernel/ksm.c:106-110 | the result is the lowest slot that can take the page (live, below 16, same hash, different page), or NMLIST when there is none |
| KsmSpec.FirstFree | kernel/ksm.c:133-136 | the result is the lowest slot with refcnt 0, or NMLIST |
| KsmSpec.MergeZero | kernel/ksm.c:47-67 | returns -1 exactly when the entry already maps the zero page, and 1 exactly when it does not but the hash is the zero page's. On 1 the old page is freed, the entry is write-protected onto the zero page and the zero page's count grows by one; otherwise nothing changes |
| KsmSpec.Join | kernel/ksm.c:111-129 | joining slot i: on the slot's first share the representative is write-protected in place and the slot is marked merged; the incoming page is freed and its entry is write-protected onto the slot's page; the count grows by one; nothing else changes |
| KsmSpec.Push | kernel/ksm.c:97-146 | nothing changes when a live slot already has the page. Otherwise the result is 1 exactly when some slot can take it, and then the lowest such slot is joined. Otherwise the lowest free slot is seeded, or nothing changes when the table is full |
| KsmSpec.MergePage | kernel/ksm.c:148-160 | an entry already on the zero page is left alone and the result is 0. A page with the zero page's hash is merged into the zero page: result 1, its page freed, the entry write-protected onto the zero page, the zero page's count up by one, and no other entry or slot changed. Any other page gets exactly push_mlist's result. On 1 the entry is write-protected onto the zero page or onto the page of a slot that could take it; on 0 no entry and not the zero page change |
| KsmSpec.MergePageFrame | kernel/ksm.c:148-160 | merge_page frees exactly one page when it returns 1 and none otherwise, and keeps every valid bit. It changes no entry but the incoming one and the representatives of slots holding a single mapping, and leaves no such slot except one on the incoming entry. No entry gains write permission, and every entry it changes is read-only |
| KsmSpec.Prune | kernel/ksm.c:85-93 | update_mlist clears exactly the slots with refcnt 1 that never merged and keeps every other slot; afterwards no such slot is left |
| KsmSpec.ScanStep | kernel/ksm.c:193-208 | the loop body keeps the table size, the number of entries and the invariant that every representative pointer addresses an entry |
| KsmSpec.ScanFrom | kernel/ksm.c:190-209 | the inner loop over one process keeps the same sizes and pointer invariant |
| KsmSpec.ScanAt | kernel/ksm.c:191-209 | one pass below `sz` followed by the rest of the loop keeps the same sizes and pointer invariant |
| KsmSpec.ScanProcs | kernel/ksm.c:184-210 | the outer loop over the process table keeps the same sizes and pointer invariant |
| KsmSpec.SysKsm | kernel/ksm.c:162-220 | after a sweep no slot with refcnt 1 that never merged remains, and the table and entry memory keep their sizes |
| KsmProps.PushKeepsRegistryInv | kernel/ksm.c:97-146 | push_mlist keeps every slot at 16 mappings or fewer, every slot marked merged at two or more, and the backing pages of live slots distinct |
| KsmProps.MergePageKeepsInv | kernel/ksm.c:148-160 | merge_page keeps that invariant, keeps no live slot on the zero page, and keeps every representative pointer valid |
| KsmProps.PruneIdempotent | kernel/ksm.c:85-93 | running update_mlist twice is running it once |
| KsmProps.PruneKeepsInv | kernel/ksm.c:85-93 | update_mlist keeps the invariant |
| KsmProps.ScanStepKeepsInv | kernel/ksm.c:193-208 | one pass of the loop body keeps the invariant |
| KsmProps.ScanFromKeepsInv | kernel/ksm.c:190-209 | the inner loop keeps the invariant |
| KsmProps.ScanProcsKeepsInv | kernel/ksm.c:184-210 | the outer loop keeps the invariant |
| KsmProps.SysKsmKeepsInv | kernel/ksm.c:162-220 | a whole sweep keeps the invariant |
| KsmProps.ValidFromSameBits | kernel/ksm.c:191-209 | the number of valid entries a process walks depends only on the valid bits |
| KsmProps.ValidInProcsSameBits | kernel/ksm.c:184-210 | the same holds for all scanned processes |
| KsmProps.CountsFromStep | kernel/ksm.c:193-208 | one pass counts a valid entry as scanned, and as merged exactly when merge_page frees its page |
| KsmProps.ScanFromCounts | kernel/ksm.c:190-209 | the inner loop scans one page per valid entry, merges at most one per scanned page, frees one page per merge after the earlier frees, and keeps valid bits |
| KsmProps.ScanProcsCounts | kernel/ksm.c:184-210 | the same counts over every process the sweep does not skip |
| KsmProps.SysKsmCounts | kernel/ksm.c:162-220 | `scanned` is the number of valid entries of the non-skipped processes, `merged <= scanned`, and exactly `merged` pages are freed, after the earlier ones |
| KsmProps.NoNewWritesTrans | kernel/ksm.c:193-208 | two steps that grant no write permission and leave their rewritten entries read-only compose into one |
| KsmProps.FrameFromStep | kernel/ksm.c:193-208 | one pass stays in the footprint of the walked entries from `va` on: it grants no write permission, and rewrites only walked entries and representatives of single-mapping slots |
| KsmProps.ScanFromFrame | kernel/ksm.c:190-209 | the inner loop rewrites only entries it walks at aligned addresses below `sz` and representatives of single-mapping slots, leaves new single-mapping slots only on walked entries, grants no write permission and leaves what it rewrites read-only |
| KsmProps.ScanProcsFrame | kernel/ksm.c:184-210 | the same footprint over the non-skipped processes, again with no write permission granted |
| KsmProps.SysKsmFrame | kernel/ksm.c:162-220 | a sweep grants no write permission and leaves every entry it rewrites read-only. It leaves alone every entry that no scanned process walks and that is not the representative of a single-mapping slot. Such a representative is rewritten when its slot is joined, whoever owns it, pids 1 and 2 and the caller included. The zero page's address and hash are kept |
| KsmProps.SysKsmLeavesNoSingles | kernel/ksm.c:162-220 | after a sweep no slot holds a single mapping: update_mlist clears the unmerged ones and a merged slot counts two or more |
| KsmProps.SweepAfterSweepFrame | kernel/ksm.c:162-220 | when the second sweep starts from the state the first left (nothing outside these files touched the slot table or the entries in between), every entry that no process it scans walks is left alone, the entries of pids 1 and 2 and of the caller included |
| KsmProps.ScenarioSeeds | kernel/ksm.c:133-144 | in the scenario, pid 4's page finds no slot to join and seeds slot 0 |
| KsmProps.ScenarioJoins | kernel/ksm.c:106-129 | pid 5's page with the same hash joins slot 0 and promotes pid 4's entry |
| KsmProps.ScenarioSweep | kernel/ksm.c:184-210 | the sweep skips the caller (pid 3), seeds and then joins: counters (2, 1) |
| KsmProps.PairMergeScenario | kernel/ksm.c:162-220 | two equal pages: one sweep scans 2 and merges 1, both entries end on one write-protected page, the other page is freed, the caller's entry is untouched, and the slot survives update_mlist as merged |
| Ksm.KsmState.constructor | kernel/ksm.c:24-29 | the globals at boot: a zeroed table and zeroed counters |
| Ksm.KsmState.MergeZeropage | kernel/ksm.c:47-67 | the in-place update computes exactly `MergeZero` |
| Ksm.KsmState.UpdateMlist | kernel/ksm.c:85-93 | the loop leaves the table equal to `Prune` of the old table |
| Ksm.KsmState.FindRepresented | kernel/ksm.c:100-104 | the first loop finds a live slot on the page exactly when one exists |
| Ksm.KsmState.FindJoinable | kernel/ksm.c:106-110 | the second loop returns `FirstJoinable` |
| Ksm.KsmState.FindFree | kernel/ksm.c:133-136 | the third loop returns `FirstFree` |
| Ksm.KsmState.JoinSlot | kernel/ksm.c:111-129 | the in-place merge computes exactly `Join` |
| Ksm.KsmState.PushMlist | kernel/ksm.c:97-146 | the three loops compute exactly `Push` |
| Ksm.KsmState.MergePage | kernel/ksm.c:148-160 | computes exactly `KsmSpec.MergePage` |
| Ksm.KsmState.ScanPage | kernel/ksm.c:193-208 | one loop pass computes exactly `ScanStep` on state and counters |
| Ksm.KsmState.ScanHashed | kernel/ksm.c:203-205 | `scanned` grows by one and `merged` by merge_page's result |
| Ksm.KsmState.ScanProcess | kernel/ksm.c:190-209 | the while loop computes exactly `ScanFrom` from address 0 |
| Ksm.KsmState.SysKsm | kernel/ksm.c:162-220 | the sweep computes exactly `KsmSpec.SysKsm`, counters included |
| MkfsCodec.EncodeLE | mkfs/mkfs.c:54-74 | the encoding has exactly n bytes |
| MkfsCodec.DecodeEncode | mkfs/mkfs.c:54-74 | decoding the n-byte little-endian encoding of a value below 256^n gives the value |
| MkfsCodec.EncodeDecode | mkfs/mkfs.c:54-74 | every byte string is the encoding of the value it denotes |
| MkfsCodec.XShort | mkfs/mkfs.c:54-62 | two bytes that decode to x |
| MkfsCodec.XInt | mkfs/mkfs.c:64-74 | four bytes that decode to x |
| MkfsCodec.XIntOfDecode | mkfs/mkfs.c:64-74 | any four bytes denote a 32-bit value, and xint of it gives the bytes back |
| MkfsCodec.WordAt | mkfs/mkfs.c:317 | a word read from a block is below 2^32 |
| MkfsCodec.WordAtDecode | mkfs/mkfs.c:317 | word k is the little-endian value of bytes 4k .. 4k+3 |
| MkfsCodec.SetWord | mkfs/mkfs.c:337 | after `buf[k] = v`, word k reads v, every other word is kept, and so is the length |
| MkfsCodec.EncodeWords | mkfs/mkfs.c:289 | the bytes of a word array: word k reads back element k |
| MkfsCodec.BitOfSet | mkfs/mkfs.c:299 | after setting bit k, bit m is set exactly when m == k or it was set before |
| MkfsCodec.SetBit | mkfs/mkfs.c:299 | `buf[i/8] \|= 1 << (i%8)` sets bit i of the bitmap and changes no other bit |
| MkfsLayout.InodeBlocks | mkfs/mkfs.c:29 | `NINODES / IPB + 1` blocks hold more than NINODES inodes |
| MkfsLayout.BitmapLayout | mkfs/mkfs.c:100-134 | classic layout: the log, inode and bitmap regions follow each other from block 2, the data blocks fill the rest, the inode blocks hold 200 inodes, and the bitmap has a bit for every block |
| MkfsLayout.FatLayout | mkfs/mkfs.c:100-123 | FAT layout: the log, FAT and inode regions follow each other from block 2, the free list starts at the first data block and counts every data block, and the FAT has an entry for every block |
| MkfsLayout.RootDirSize | mkfs/mkfs.c:195-200 | the root directory's final size is a multiple of BSIZE, above the old size by at most BSIZE |
| MkfsInode.NewInode | mkfs/mkfs.c:258-270 | the inode ialloc writes: zero but for the type, one link and size 0 |
| MkfsInode.SameAddrs | mkfs/mkfs.c:433 | setting the size moves no file byte and keeps the map invariant |
| MkfsInode.ExtendsTrans | mkfs/mkfs.c:409-424 | two allocation steps compose into one |
| MkfsInode.NewInodeSane | mkfs/mkfs.c:258-270 | a fresh inode maps no block and meets the map invariant |
| MkfsInode.AllocDirect | mkfs/mkfs.c:409-413 | giving `freeblock` to an empty direct slot maps that block to it, keeps the invariant with `freeblock + 1`, and keeps every other file block's mapping and every byte |
| MkfsInode.AllocIndirect | mkfs/mkfs.c:415-416 | giving `freeblock` to the indirect pointer changes no mapping, because the block is zero |
| MkfsInode.AllocIndirectEntry | mkfs/mkfs.c:418-423 | writing `freeblock` into an empty indirect entry maps the block to it and keeps every other file block's mapping and every byte |
| MkfsInode.ConfinedTrans | mkfs/mkfs.c:403-432 | two confined steps of iappend, the second keeping the first's map, make one confined step |
| MkfsInode.ProgressStep | mkfs/mkfs.c:403-432 | one more pass of the classic loop keeps the bytes appended so far and the confinement of the loop |
| MkfsInode.OtherFileKept | mkfs/mkfs.c:187-190 | a file sharing no block with the one iappend grew keeps its map, its bytes and its invariant, and still shares no block with the grown file |
| MkfsInode.ApartSym | mkfs/mkfs.c:187-190 | sharing no block is symmetric |
| MkfsInode.NewInodeApart | mkfs/mkfs.c:258-270 | the inode ialloc writes shares no block with any file |
| MkfsInode.GrownKept | mkfs/mkfs.c:187-190 | a grown file stays grown while another file's append keeps its map and bytes |
| MkfsInode.FirstAppendDone | mkfs/mkfs.c:186-187 | after the entry is appended to the root, the new file keeps its map, bytes and invariant, and shares no block with the grown root |
| MkfsInode.SecondAppendDone | mkfs/mkfs.c:189-190 | after the data is appended to the file, both files are grown by their bytes since the start and still share no block |
| MkfsInode.StillApart | mkfs/mkfs.c:403-432 | a block below the old `freeblock` that the file did not own is not owned after a confined step either |
| MkfsInode.WriteKeepsMap | mkfs/mkfs.c:426-428 | overwriting a data block of the file keeps the map and the invariant |
| MkfsInode.WriteNewBytes | mkfs/mkfs.c:426-428 | the copied bytes read back at `fbn * BSIZE + a ..` |
| MkfsInode.NewByte | mkfs/mkfs.c:427 | byte k of the block mapped at fbn is file byte `fbn * BSIZE + k` |
| MkfsInode.WriteOldBytes | mkfs/mkfs.c:426-428 | every file byte outside the overwritten range before it is kept |
| MkfsInode.WriteChunk | mkfs/mkfs.c:425-428 | the copy keeps the invariant: the map is the same, the new bytes land, and the earlier bytes stay |
| MkfsInode.BeforeInBlock | mkfs/mkfs.c:407-427 | an offset before `off` lies in an earlier block, or earlier in the same block |
| MkfsInode.ChunkLands | mkfs/mkfs.c:407-431 | mapping the block and copying `n1` bytes appends them at `off` and keeps every earlier byte |
| MkfsInode.AppendedTrans | mkfs/mkfs.c:406-432 | two consecutive appends are one append of their concatenation |
| MkfsInode.AppendedSized | mkfs/mkfs.c:433 | after all chunks, setting the size to `off` gives a file grown by exactly the data |
| MkfsFat.FatSlot | mkfs/mkfs.c:313 | the word of entry i lies inside its block |
| MkfsFat.SameSlot | mkfs/mkfs.c:312-313 | two entries share block and word only when they are equal |
| MkfsFat.SetFat | mkfs/mkfs.c:337 | setting entry j changes entry j to v and keeps every other entry and every block but j's |
| MkfsFat.PopFree | mkfs/mkfs.c:335-353 | getfreeblk on the table: the head entry becomes 0, entry `prev` (when not 0) links to the head, and only those entries' blocks change |
| MkfsFat.Relink | mkfs/mkfs.c:339-356 | the writes at the end of getfreeblk keep the number of blocks |
| MkfsFat.PopFreeWrites | mkfs/mkfs.c:330-356 | the one or two block writes getfreeblk makes are `PopFree` |
| MkfsFat.TableGrows | mkfs/mkfs.c:288-290 | writing FAT block i after blocks 0 .. i-1 leaves blocks 0 .. i written |
| MkfsFat.FatOfTable | mkfs/mkfs.c:288-290 | a table written block by block from `buf` reads back `buf[i]` as entry i |
| MkfsFat.FatEntry | mkfs/mkfs.c:311-317 | entry i of the written table is `buf[i]` |
| MkfsFat.FatEntryOfBlock | mkfs/mkfs.c:312-317 | word k of table block b is entry `b * W + k` and holds `buf[b * W + k]` |
| MkfsFat.EncodedWord | mkfs/mkfs.c:289 | word k of the bytes of `buf[lo..hi]` is `buf[lo + k]` |
| MkfsCopy.NextChunk | mkfs/mkfs.c:407-427 | a chunk is non-empty, no longer than what is left, inside one block, starts at `off` and copies from the current source position |
| MkfsCopy.CopyPlan | mkfs/mkfs.c:403-432 | the classic loop makes a copy exactly when there are bytes to append (with `CopyPlanSound` and `CopyPlanCovers` for what the copies are) |
| MkfsCopy.FatPlanAsWritten | mkfs/mkfs.c:377-399 | the FAT loop as written makes a copy exactly when there are bytes to append, and every copy takes its bytes from the start of the buffer |
| MkfsCopy.CopyPlanSound | mkfs/mkfs.c:406-432 | the classic loop's chunks are non-empty and inside one block, take the source back to back with lengths adding up to n, and copy source byte `src + k` to offset `off + k` |
| MkfsCopy.CopyPlanInBlocks | mkfs/mkfs.c:425-427 | every chunk is non-empty and inside one block |
| MkfsCopy.CopyPlanFromSource | mkfs/mkfs.c:425-431 | every chunk copies source byte `src + k` to offset `off + k` |
| MkfsCopy.CopyPlanBackToBack | mkfs/mkfs.c:429-431 | the chunks take the source back to back, and their lengths add up to n |
| MkfsCopy.CopyPlanCons | mkfs/mkfs.c:406-432 | a plan of n > 0 bytes is its first chunk followed by the plan for the rest |
| MkfsCopy.PlanStep | mkfs/mkfs.c:396-397 | after each pass, the chunks made so far plus the remaining plan are the whole plan |
| MkfsCopy.InBlocksCons | mkfs/mkfs.c:425 | a good chunk in front of good chunks |
| MkfsCopy.BackToBackCons | mkfs/mkfs.c:429-431 | a first chunk followed by back-to-back chunks for the rest |
| MkfsCopy.FromSourceCons | mkfs/mkfs.c:427-431 | a first chunk followed by chunks that copy from the source |
| MkfsCopy.CopyPlanCovers | mkfs/mkfs.c:406-432 | every source byte k < n is copied, by some chunk, to offset `off + k` |
| MkfsCopy.FatPlanAsWrittenShape | mkfs/mkfs.c:377-399 | the FAT loop as written makes the classic loop's chunks, except that every chunk copies from source offset 0 |
| MkfsCopy.FatPlanHead | mkfs/mkfs.c:391-397 | the FAT loop's `off % BSIZE` and `min(n, BSIZE - off % BSIZE)` give the classic loop's first chunk |
| MkfsCopy.FatAppendAsWrittenMisplaces | mkfs/mkfs.c:391-397 | appending BSIZE + 1 bytes to an empty file copies source byte 0, not byte BSIZE, to offset BSIZE |
| MkfsCopy.CopyPlanAligned | mkfs/mkfs.c:425-431 | with the source advanced, every chunk puts every byte at its own offset |
| Mkfs.Image.constructor | mkfs/mkfs.c:100-139 | the globals before the first allocation: the build's layout, `freeinode = 1`, `freeblock = nmeta`, an all-zero image, and in the FAT build the free list from the first data block |
| Mkfs.Image.Ialloc | mkfs/mkfs.c:258-270 | returns the old `freeinode`, advances it, and writes the new inode |
| Mkfs.Image.BallocBitmap | mkfs/mkfs.c:291-303 | dies exactly when `used >= BSIZE * 8`. Otherwise bit i of the bitmap block is set exactly for i < used, and no other block changes |
| Mkfs.Image.BallocFat | mkfs/mkfs.c:275-290 | after it runs, entry i reads 0xFFFFFFFF for i < used, i + 1 for the later blocks, and 0 past the image; no block outside the table changes |
| Mkfs.Image.WriteTable | mkfs/mkfs.c:288-290 | writing the table from `buf` makes entry i read `buf[i]` and changes no other block |
| Mkfs.Image.WriteTableBlock | mkfs/mkfs.c:289 | one pass writes table block i and no other block |
| Mkfs.Image.ReadSect | mkfs/mkfs.c:249-256 | reads the block, and fails exactly when it lies past the image |
| Mkfs.Image.WriteSect | mkfs/mkfs.c:213-220 | the block becomes `buf` and no other block changes |
| Mkfs.Image.Inum2Fat | mkfs/mkfs.c:309-320 | reads FAT entry `blk` exactly when its block is inside the image |
| Mkfs.Image.GetFreeBlk | mkfs/mkfs.c:322-359 | succeeds exactly when the FAT blocks it reads are inside the image. It then returns the old head, makes its entry the new head, leaves the image as `PopFree`, and decrements `freeblks` as a `uint` |
| Mkfs.Image.WriteLinks | mkfs/mkfs.c:338-356 | the writes are `Relink`, and fail only when `prevblk`'s block is past the image |
| Mkfs.Image.MapBlock | mkfs/mkfs.c:407-424 | maps file block fbn to an in-range block and keeps the invariant, the rest of the map and every byte; fails only when the image is full. It is `Confined`: the indirect block is kept once assigned, every newly assigned block comes from the old `freeblock` on, and every block below it that the file does not own is unchanged |
| Mkfs.Image.MapDirect | mkfs/mkfs.c:409-413 | the direct case of MapBlock, confined like it |
| Mkfs.Image.MapIndirect | mkfs/mkfs.c:414-424 | the indirect case of MapBlock, confined like it |
| Mkfs.Image.IndirectBlock | mkfs/mkfs.c:415-417 | assigns an indirect block when there is none, from `freeblock`, and writes no block |
| Mkfs.Image.MapEntry | mkfs/mkfs.c:418-423 | assigns the indirect entry when it is 0 and writes the indirect block back; no block the file does not own changes |
| Mkfs.Image.AppendChunk | mkfs/mkfs.c:407-431 | one pass appends `n1 > 0` bytes of the source at `off`; fails only when the image is full. It is `Confined`: the indirect block is kept once assigned, every newly assigned block comes from the old `freeblock` on, and every block below it that the file does not own is unchanged |
| Mkfs.Image.CopyIntoBlock | mkfs/mkfs.c:425-428 | the read, copy and write of one chunk do what `CopiedInto` says; the block written is the file's own, so no block it does not own changes |
| Mkfs.Image.AppendData | mkfs/mkfs.c:403-432 | the loop appends all of `data` at the end of the file, keeping the invariant and every earlier byte, and the whole loop is confined to the file's blocks and the blocks from the old `freeblock` on |
| Mkfs.Image.Iappend | mkfs/mkfs.c:362-436 | classic iappend grows the file by exactly `data`: the same type and links, old bytes kept, `data` readable at `size ..`, the invariant kept, and `freeblock` only grows. It dies only past MAXFILE blocks or on a full image. No block below the old `freeblock` that the file does not own changes |
| Mkfs.Image.AppendStep | mkfs/mkfs.c:407-431 | one pass of the classic loop, after the MAXFILE check, extends the progress made so far by `n1 > 0` bytes, still appended and still confined |
| Mkfs.Image.AppendEntryAndData | mkfs/mkfs.c:184-190 | a round of main's loop over input files: the directory entry is appended to the root and the data to the new file, both files grow by exactly their bytes since the start, no other inode changes, and the two files still share no block |
| Mkfs.Image.AppendAfterEntry | mkfs/mkfs.c:189-190 | after the entry went into the root, appending the data to the file keeps the root grown by the entry and grows the file by the data |
| Mkfs.Image.WalkChain | mkfs/mkfs.c:381-389 | following the chain keeps the table valid, changes no inode, and yields a `uint` block number |
| Mkfs.Image.FatChunk | mkfs/mkfs.c:381-397 | one pass of the FAT loop: the chunk is the classic loop's next one, and the block the walk reached takes `data[p .. p + len]` at the chunk's offset while every other byte of it and every other block keep what they held after the walk |
| Mkfs.Image.FatStep | mkfs/mkfs.c:377-397 | a file without blocks first gets the old free-list head as its start block; a file with blocks keeps its inode; nothing else of the inode changes, and the chunk is written as in `FatChunk` |
| Mkfs.Image.AppendChunksFat | mkfs/mkfs.c:376-399 | the loop grows the size by exactly n and changes only the start block: a file with blocks, or an append of nothing, keeps it, and an empty file gets the old free-list head when that is not 0. Its writes, in order, copy exactly the classic plan's chunks, each putting `data[src .. src + len]` at its offset of its block, and the image ends as the last write left it |
| Mkfs.Image.IappendFat | mkfs/mkfs.c:362-401 | FAT iappend writes back the inode of `AppendChunksFat`: size up by exactly n, only the start block otherwise changed (kept for a file with blocks, the old free-list head for an empty file), no other inode changed, and the same trace of chunk writes |
| Mkfs.TracedStep | mkfs/mkfs.c:391-397 | one more chunk write extends the trace and its list of chunks |
| Mkfs.CopiedLands | mkfs/mkfs.c:391-393 | after a chunk write, byte `boff + k` of its block is source byte `src + k` for k < len, and the block's other bytes and every other block are kept |
| Mkfs.PastMaxFile | mkfs/mkfs.c:407-408 | a block number at or past MAXFILE means an offset at or past MAXFILE * BSIZE |
| Mkfs.ChunkPosition | mkfs/mkfs.c:425-427 | `off - fbn * BSIZE` is `off % BSIZE`, and the chunk fits in its block |
| Mkfs.FatChunkIsNext | mkfs/mkfs.c:391-393 | the FAT loop's `off % BSIZE` and `min(n, BSIZE - off % BSIZE)` give the classic chunk |

## Left out

- Hashing and page contents: `xxh64` and the bytes of each physical page are
  function parameters of the sweep.
- `kfree`: the model records the freed pages in the ghost `freed` sequence,
  and no allocator is modelled.
- Page-table entries are records (page, valid, writable, bit 8, other
  flags). The 64-bit word with `PA2PTE`/`PTE2PA` shifts is not modelled.
- `walk` is a map from page-aligned virtual addresses to entry pointers.
  Intermediate page-table levels are not modelled.
- `myproc`, `argaddr` and `copyout`, and `sys_ksm`'s return value `freemem`,
  are not modelled. The method returns the two counters instead of copying
  them out.
- The process table is a sequence read without locks. The source also takes
  no lock, and concurrency is not modelled.
- Integer widths in ksm: `scanned` and `merged` are C `int`s and `va0` is a
  `uint64`. The model uses unbounded naturals, so it does not model the
  wrap-around of more than 2^31 scanned pages or of an address space near
  2^64.
- `init_zeropage` and `print_mlist` are commented out in the source. The
  zero-page record is a constructor parameter.
- The rest of `main` in mkfs is not modelled:
  - the argument handling, the reading of the input files and the
    lookup of their names;
  - directory entries and the writes of the superblock;
  - the order of the calls.
  Its layout arithmetic is modelled.
- `winode` and `rinode`: the inode table is a map from inode number to
  decoded inode. The `struct dinode` layout in `kernel/fs.h` is not part of
  this model.
- `die` and `perror` become `ok == false`. `lseek` and `write` failures on
  the host are not modelled.
- `wsect` past the end of the image (on the host that grows the file) is
  not modelled. Every write the model makes is to a block inside the image.
- Byte order: the words of a FAT block are read and written as
  little-endian `uint`s. This is what a little-endian host does, since there
  `xint` leaves a `uint`'s bytes in place. `inum2fat` and `getfreeblk` read
  raw words.
- Mkfs integer widths: `freeinode` and `freeblock` are `uint`s that the
  model does not wrap. This is reachable only after 2^32 allocations.
  `sb.freeblks` does wrap.
- `balloc`'s `|` with a one-bit mask is modelled arithmetically on byte
  values (`MkfsCodec.OrBit`).
- Changes made between two sweeps by kernel code outside `kernel/ksm.c` are
  not modelled. The copy-on-write fault handler that uses bit 8 sees the
  slot table and the zero page, which `kernel/ksm.h` declares `extern`, and
  it can bring a merged slot back to one mapping. The promotion at
  kernel/ksm.c:111 tests only `refcnt == 1` and a non-zero entry pointer, so
  it would then rewrite that slot's representative whoever owns it.
  KsmProps.SweepAfterSweepFrame assumes the second sweep starts from the
  state the first left.
- Disjointness of the files of an image is a precondition (`MkfsInode.Apart`)
  of the main-round methods, not an invariant over the whole inode table.
  `MkfsInode.NewInodeApart` gives it for a freshly allocated inode, and
  `Mkfs.Image.AppendEntryAndData` keeps it for the two files it grows.
- Main's loop over the input files is modelled for one round with one data
  buffer (`Mkfs.Image.AppendEntryAndData`). A file read in several buffers
  is a chain of further `Iappend` calls, and the postconditions give what
  each next call requires.
- Mkfs.Image.AppendChunksFat: when the free list is empty (`freehead` is 0)
  and the file is empty, `getfreeblk(0)` is tried again on each pass; the
  start block is then only bounded, not pinned.
- Mkfs.Image.BallocFat: requires `used <= FSSIZE`. The source does not
  check this, and its only caller passes `nmeta`, which is smaller.
- Mkfs.Image.WalkChain: does not state that `x` is block `fbn` of the chain.
  It only states that the table and the inodes stay well-formed.
- Mkfs.Image.IappendFat: states the new size and, write by write, which block
  took which bytes. It does not state that the file's bytes read back through
  the chain. The chain walk between two writes may change blocks, and nothing
  in the model confines those changes to the FAT: `freehead` is only known to
  be a `uint`, so an entry it names may lie past the table. Following a chain
  is not modelled as a read function.
- Mkfs.Image.IappendFat: advances the source position after each chunk,
  which is the corrected loop (see Findings). The loop as written is modelled
  by `MkfsCopy.FatPlanAsWritten`.

## Findings

| source | as written | input that shows it | evidently intended | confidence | as-written member | corrected member |
|---|---|---|---|---|---|---|
| mkfs/mkfs.c:391-397 | the FAT `iappend` loop advances `n` and `off` after each chunk but never `p`, so every chunk copies from the start of the buffer | appending BSIZE + 1 bytes to an empty file: file offset BSIZE receives source byte 0 instead of byte BSIZE. `main` calls `iappend` with whole blocks or 16-byte entries, so the bug shows only when one call crosses a block boundary | `p += n1`, as in the classic loop at mkfs/mkfs.c:431 | high that the loop misplaces bytes for such calls; not executed | MkfsCopy.FatAppendAsWrittenMisplaces | MkfsCopy.CopyPlanAligned |
