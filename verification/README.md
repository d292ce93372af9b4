# OOOPS in Dafny

OOOPS throttles the file operations of a process: it hooks `open` and `stat` by rewriting their
first instructions, counts and delays calls through shared memory, and looks things up in a small
hash table. This project models the parts of it where a mistake would be hard to see, and proves
what they are for. `dafny verify dfyconfig.toml` checks everything.

- **The hooker** (`src/hook.c`). Code memory is an array of bytes. `Isa` is the machine: opaque
  instructions, rip-relative operands, near jumps and jumps through memory; what an instruction
  does to registers and data is a parameter. `Prologue` scans, `Fixups` relocates, `Slot` writes
  one hook, `Records` has many of them, `Installer` is `install_hook` and `uninstall_hook`,
  `Placement` is the segment list and the choice of the patch blocks. `Hooked` has the main theorem:
  in the memory `install_hook` leaves, entering a function runs the new one, and calling the saved
  pointer runs the original one.
  `Disassembly` shows that the decoder below is a disassembler as installation needs it, `Whole`
  that the placement leaves what installation needs, up to hooks that run.
- **xxHash** (`src/xxhash.c`). `Xxh64` and `Xxh32` hold the published algorithm description as
  functions, the one-shot code, the fall-through finalizer and the streaming state as methods
  proved against it, and the proofs that rounds and avalanche are permutations, so that no two
  inputs one tail unit apart collide. `Xxh64Values` and `Xxh32Values` evaluate published hashes.
  Words are bit vectors; `Words64` and `Words32` pair every mixing operation with the one that
  undoes it; `Chunks` is what both hashes share.
- **The hash table** (`src/dict.c`, `src/server.c`). `Arena` is the table as a value: one array
  whose free list and bucket chains are linked by indices. `Dict` is the table in place, refining
  a stack of values for every key; `RankTable` loads the host list.
- **The throttle** (`src/ooops.c`, `src/set_io_param.c`). `RateLimiter` is the three-call rule of
  one process over an abstract clock; `Tickets` is the same code run by many threads, one load or
  store at a time; `Params` is the publication of parameters between processes.
- **The decoder** (`libudis86`). `Tables` says what is required of the generated lookup tables,
  `Walk` is one instruction as a function of the bytes, `Decoder` is `struct ud` with its methods,
  proved against it. `ModRm` has the addressing forms and their encodings, `Encodings` registers,
  sizes and table slots, `Assembler` the theorem that whole instructions, written down in any of
  their encodings, are decoded as what they are; `Samples` has particular instructions.

## What the code does not do as one would expect

Each of these is a lemma below, with the exact condition.

- Prologues are relocated correctly exactly when `Fixups.Allowed` holds (`Fixups.FixedExactly`). A
  rip-relative displacement that is zero or negative is printed without a plus sign, is never
  noticed, and is not relocated (`Fixups.NegativeDisplacementLost`); neither is one behind prefix 67
  or a segment prefix, with which the text has no `[rip+` (`Fixups.PrefixedLost`), nor one followed
  by an immediate of more than two bytes, nor one of 0x7FF00000. A near jump is relocated only as
  the first or the second instruction (`Fixups.ThirdJumpLost`).
- A window of 24 bytes in which no instruction starts at offset 5 or later saves nothing, and the
  jump back in its slot leads delta bytes past the function (`Fixups.FilledGoesAstray`). If its last
  instruction has a rip operand, the code looks for the displacement in the six bytes in front of
  the slot, and changes them exactly when four of them are equal to it (`Slot.UndoneExactly`). In
  the first slot of a block these are code: installing and uninstalling gives all code back exactly
  if no hook there does that (`Installer.Hooker.InstallThenUninstall`).
- Saving 16 bytes or more lets the jump back run into the bounce. With 16 to 19 bytes the bounce is
  whole exactly if the high bytes of the jump back agree with its first bytes, with 20 or more
  never (`Hooked.BounceWhole`, `Hooked.SixteenBytesBreak`).
- Two entries less than five bytes apart, restored in the order they were patched, are given back
  exactly if the jump written first agrees with the code where they overlap
  (`Hooked.OverlapRestored`, `Hooked.OverlapLost`); in the reverse order always
  (`Hooked.OverlapReversed`).
- A patch block that is newly made is not stored as the block of its module. All hooks go to blocks
  in reach exactly if the block behind the first module's segment reaches every module
  (`Placement.ReachedExactly`); the first module it does not reach keeps block 0
  (`Placement.SecondBlockLost`).
- If the stack starts where the mapping before it ends, the segment in front of it is dropped
  together with the stack (`Placement.MapUpToStack`, `Placement.StackTakesLibrary`).
- A library is found under its own name exactly if the name is in no name listed before it
  (`Placement.BaseExactly`, `Placement.BaseLost`).
- `DictDelete` is documented to have no effect without a matching record; exactly in an empty bucket
  it reads element -1 (`Dict.Table.Delete`, outcome `OutOfBounds`; `Dict.DeleteInNew`).
- `ud_disassemble` applies the limit of 15 bytes to prefixes and first opcode byte only. How many
  bytes it takes is `Walk.LengthIsSum`; a move of an immediate takes 22 behind 12 prefixes
  (`Samples.DisassembleMov`), and tables as required allow 42 (`Samples.Takes42`).
- The operand size for the operands is not always the one the size tables were looked up with
  (`Walk.SizesAgree`); for `push` it is not (`Samples.PushSizesDiffer`).
- In 32-bit addressing a set REX.B, which has no meaning for an address without a base register, makes
  the decoder take one for `r13d` and leave its displacement to the next instruction
  (`ModRm.RoundTrip`, `ModRm.Bare32Lost`).
- The switch of `set_io_param` is missed exactly by a process that has read it on and loads the stamp
  only when the limits are off with no stamp to come (`Params.SwitchAgrees`,
  `Params.GapAlwaysHarms`); it is never missed if no stamp is stored while a reader is between the
  two (`Params.PatientAgrees`). Two threads of one process can leave it with old parameters under a
  current stamp (`Params.TwoThreadsDisagree`).

## Model

| member | source | states |
|---|---|---|
| `Isa.LawfulMachineExists` | src/hook.c:666-739 | The laws assumed of the machine (prefix-free instructions, any 32-bit displacement, lengths 1 to 15) are met by a small instruction set with a rip-relative load and both kinds of jump. |
| `Isa.OnlyJumpsStartE9` | src/hook.c:670-718 | A legal instruction whose first byte is E9 is a near jump, so the byte test of the code finds jumps and nothing else. |
| `Isa.RelocatedRunsAlike` | src/hook.c:700-721 | A prologue moved down by delta with its displacements raised by delta computes the same state; a jump, direct or through memory that is the same in both places, keeps its target, the fall-through end moves along. |
| `Isa.TrampolineSimulates` | src/hook.c:700-724 | For any machine, running the relocated prologue with its jump back reaches the state and instruction pointer that running the original prologue reaches. |
| `Prologue.TakeBounds` | src/hook.c:666-694 | Of instructions of any length, the saved ones are a prefix that reaches offset 5, and the last of them starts below 5. |
| `Prologue.TakeStops` | src/hook.c:667-678 | The number of instructions saved is the least whose total length reaches 5. |
| `Prologue.SavedBounds` | src/hook.c:666-694 | 5 to 23 bytes are saved, or none exactly if the instructions that start below 5 fill the window; 5 to 19 if no instruction has more than 15 bytes. |
| `Prologue.Scan` | src/hook.c:659-694 | For windows split into instructions of any length, the loop returns the least instruction boundary of 5 or more behind which another instruction starts, or 0, the last rip displacement printed with a plus, and where a jump behind another instruction is; it never ends by the limit on instructions. |
| `Fixups.WindowsExact` | src/hook.c:705-713 | The three windows together add delta to the displacement and nothing else exactly when one of them holds it and no other matches by accident, also after the addition. |
| `Fixups.WrongPlace` | src/hook.c:705-721 | Additions at two different offsets never give the same bytes. |
| `Fixups.JumpSeen` | src/hook.c:670-676 | Of scanned prologues, exactly those of two or more instructions that end in a near jump are marked, with the length of the instruction before it plus one. |
| `Fixups.FixedExactly` | src/hook.c:700-721 | The bytes left in the slot are the relocated trampoline if and only if the prologue is one of the allowed ones: a rip operand must be printed as [rip+, without prefix 67 and segment prefix. |
| `Fixups.NegativeDisplacementLost` | src/hook.c:682-688 | lea rax, [rip-8] is copied as it stands, for every distance of the slot. |
| `Fixups.PrefixedLost` | src/hook.c:682-688 | lea rax, [eip+d], behind prefix 67, is copied as it stands for every d: it is printed without rip. |
| `Fixups.ThirdJumpLost` | src/hook.c:670-721 | A near jump behind two one-byte instructions gets delta one byte too early, and is not relocated. |
| `Fixups.FilledGoesAstray` | src/hook.c:696-721 | With nothing saved the last fix-up takes the jump back for a copied one: it leads delta bytes past the function. |
| `Fixups.JumpBackKept` | src/hook.c:697-721 | Behind nine saved bytes or more no fix-up reaches the jump back. |
| `Slot.FixWindows` | src/hook.c:705-713 | The window loop in memory does to the six bytes in front of the end of the code what the three windows do, and touches nothing else. |
| `Slot.FixUp` | src/hook.c:705-721 | All fix-ups, in the order of the code, on the bytes of the slot; with nothing saved the windows are the six bytes in front of it. |
| `Slot.WriteTrampoline` | src/hook.c:659-721 | Scan, copy, jump back and fix-ups leave the image of the window in the slot, what the windows do in front of it, and the rest of memory alone. |
| `Slot.WriteSlot` | src/hook.c:655-739 | One pass of the loop: address, bounce, trampoline, the five saved bytes, and the jump over the entry; only the slot and the entry change, and, for a window filled by a rip-relative instruction, the six bytes in front of the slot. |
| `Slot.StrayExactly` | src/hook.c:705-713 | The six bytes in front of the slot change if and only if the window is filled by an instruction with a positive rip displacement and four of them equal it. |
| `Slot.UndoneExactly` | src/hook.c:705-713 | Restoring the entry brings back all memory outside the slot if and only if that is not so. |
| `Slot.FilledByRipExists` | src/hook.c:666-694 | Such windows exist. |
| `Records.HoldsKept` | src/hook.c:632-750 | Writing another hook, in another slot and five bytes or more away, leaves a hook intact. |
| `Records.AddHook` | src/hook.c:636-748 | One more hook keeps the invariant of installation: all slots as written, untouched code original, unused slots zero, the code that was read original as far as no other entry comes, and in front of each block what the hook in its first slot makes of it. |
| `Records.FrontExactly` | src/hook.c:705-713 | What is in front of a block changes if and only if the hook in its first slot is for a window filled by a rip-relative instruction, its displacement stands there, and the distance is not a multiple of 2^32. |
| `Installer.Hooker.IsDuplicate` | src/hook.c:640-648 | The inner loop finds out whether an earlier enabled hook of the module is for the same function. |
| `Installer.SameEarlier` | src/hook.c:637-651 | Comparing with the hooks already processed, some of them disabled on the way, gives the same answer as comparing with the list as registered. |
| `Installer.NewIsApart` | src/hook.c:633-651 | A hook that is neither disabled nor a duplicate gets a slot of its own and lies five bytes or more from every installed entry. |
| `Installer.Hooker.InstallOne` | src/hook.c:653-747 | Installing one hook advances the loop invariant by one hook and one record. |
| `Installer.Hooker.InstallModule` | src/hook.c:633-749 | One module: the slots used stay below the block's count, which grows by the number of registered hooks, gaps included. |
| `Installer.Hooker.InstallHook` | src/hook.c:610-753 | Every hook that is enabled and no duplicate is installed once, its caller's pointer is its slot, and the result is their number; without libc nothing happens. Windows may be split into instructions of any length. |
| `Installer.Hooker.RestoreOne` | src/hook.c:287-305 | One slot of the sweep: a used slot restores its entry, a zero one is skipped. |
| `Installer.Hooker.UninstallHook` | src/hook.c:270-317 | Afterwards all memory outside the patch blocks is as it was before installation, but for what is in front of a block whose first hook strayed; all of it is, if and only if no such hook did harm. A second call does nothing. |
| `Installer.Hooker.InstallThenUninstall` | src/hook.c:270-317 | Installing and uninstalling is the identity on code memory, with several modules, shared blocks, disabled hooks, duplicates and instructions of any length, if and only if no hook in a first slot does harm; if no other entry lies in the windows of these hooks, that is told from the code before. |
| `Installer.ReturnedExactly` | src/hook.c:270-317 | After the sweep all code is back if and only if no hook in the first slot of a block changed what is in front of it. |
| `Installer.HarmsFromInput` | src/hook.c:633-713 | Which hooks do harm, from the registered hooks and the code before installation. |
| `Disassembly.SplitDecodes` | src/hook.c:666-694 | Whatever the decoder makes of a window of 24 bytes, instructions of more than 15 bytes and a last one cut off included, is a listing installation can work with. |
| `Disassembly.DecoderWorks` | src/hook.c:757-774 | So the decoder, over any well-formed tables, is a disassembler as installation assumes it. |
| `Disassembly.DisassembleWindow` | src/hook.c:659-694 | The disassembly loop over a window gives such a listing of exactly its bytes. |
| `Hooked.RelocatedInSlot` | src/hook.c:696-739 | For an allowed prologue, the slot holds its bytes relocated, and the jump back. |
| `Hooked.TrampolineIsOriginal` | src/hook.c:696-739 | For an allowed prologue whose displacements still fit, calling the saved pointer in the hooked memory does what the function did before; a jump through memory must find the same address there. |
| `Hooked.EntryReachesNew` | src/hook.c:696-739 | Entering a hooked function reaches the new function in two jumps, with the state unchanged. |
| `Hooked.BounceWhole` | src/hook_int.h:46-68 | The bounce survives the trampoline in front of it if and only if at most 15 bytes were saved, or 16 to 19 and the high bytes of the displacement of the jump back are FF 25 00 00 as far as they run over. |
| `Hooked.SixteenBytesBreak` | src/hook_int.h:46-68 | A prologue of 4 and 12 bytes breaks the bounce whenever its slot is less than 2 GB below the function. |
| `Hooked.InstalledHookRuns` | src/hook.c:632-750 | The main theorem, in the state installation leaves, for every hook whose prologue is allowed, saves at most 15 bytes, stays within reach and has no other entry in the bytes saved: entry to new function, saved pointer to original function. |
| `Whole.PlacedIsReady` | src/hook.c:496-552 | The blocks placed for modules that lie in segments of the map are what installation asks for: separate pages, clear of every function to hook. |
| `Whole.HookWorks` | src/hook.c:496-750 | From the map to the run: if the block behind the first module's segment reaches every module, then after placement and installation every hook whose prologue is allowed, saves at most 15 bytes and has no other entry in the bytes saved, runs the new function from its entry and the original from its slot. |
| `Hooked.OverlapRestored` | src/hook.c:288-305 | Two entries less than five bytes apart, patched and restored in one order, whichever is lower, give the code back if and only if the jump written first agreed with the code it hid where they overlap. |
| `Hooked.OverlapReversed` | src/hook.c:288-305 | Restored in the reverse order, the code always comes back. |
| `Hooked.OverlapLost` | src/hook.c:288-305 | Two entries two bytes apart in code of nothing but 90, with slots 0x1000 bytes below, do not come back. |
| `Placement.Maps.GetModuleMaps` | src/hook.c:423-461 | The loop over the map computes the joined segments and the list of library names with their addresses, stopping at the stack line or one of the two limits. |
| `Placement.Maps.Query` | src/hook.c:326-343 | The exact match, or else the first listed name that has this one in it, or -1. |
| `Placement.ListedExactly` | src/hook.c:441-455 | A library is listed with the start of a line if and only if that line is the first with its name and no earlier name has this one in it. |
| `Placement.BaseExactly` | src/hook.c:326-343 | Looking up the name of a line finds the address of the first line with that name if and only if no earlier name has this one in it; otherwise it finds another library. |
| `Placement.BaseLost` | src/hook.c:326-343 | Behind a line named /lib/libc.so.6 one named /lib/libc.so is not listed, and looking it up finds the first. |
| `Placement.JoinedCovers` | src/hook.c:425-436 | Joining sorted lines covers exactly their addresses, with room between any two segments. |
| `Placement.WholeMap` | src/hook.c:423-461 | A map whose stack line is not seen is joined as a whole, and all names but that of its last line are entered. |
| `Placement.MapUpToStack` | src/hook.c:437-445 | With a stack line, the segments are exactly the lines before it if and only if the stack does not touch them; the names are those before it. |
| `Placement.StackTakesLibrary` | src/hook.c:437-445 | A stack right behind the only library leaves no segment. |
| `Placement.FindUsableBlock` | src/hook.c:473-490 | The first block from whose middle both ends of the module are within reach, or -1. |
| `Placement.Allocator.Allocate` | src/hook.c:496-552 | Every module is given a block in reach, or a new one behind its segment when there is none; otherwise the call ends at a module for which no block made so far is usable and there is no segment or no room, the modules before it being placed. With whole pages and modules that lie in segments it never ends like that. |
| `Placement.BlocksApart` | src/hook.c:513-549 | For modules inside short segments, the blocks overlap neither each other nor any segment. |
| `Placement.PlacedForHooks` | src/hook.c:513-549 | So the blocks are separate and clear of all mapped code, which is what installation assumes. |
| `Placement.BlocksMissMap` | src/hook.c:513-549 | In a map of whole pages, touched by the stack or not, there is room for a block behind every segment kept, and it overlaps no line of the map. |
| `Placement.BlocksMissWholeMap` | src/hook.c:513-549 | So it is in a map without a stack line. |
| `Placement.NeverStuck` | src/hook.c:513-537 | A module that lies in a segment of whole pages always gets a block. |
| `Placement.ReachedExactly` | src/hook.c:504-548 | With f the first module with something to hook and no block assigned yet, all hooks go to blocks in reach if and only if the block behind the segment of f reaches every module. |
| `Placement.DisplacementsFit` | src/hook.c:480-486 | In reach means that both the entry jump and the jump back fit 32 bits, for every function of the module and every slot of the block. |
| `Placement.SecondBlockLost` | src/hook.c:509-548 | In any map, the first module out of reach of that block, if it is more than 2^31 away, is sent to it all the same, and none of its entry jumps fits. |
| `Placement.FarApartExists` | src/hook.c:509-548 | Such a map, its modules, and what the allocation makes of them. |
| `Xxh64.RowTakes` | src/xxhash.c:729-803 | Row by row, the fall-through switch takes eight bytes while it can, then four, then single bytes. |
| `Xxh64.EveryLabelPresent` | src/xxhash.c:729-808 | Every remainder of 0 to 31 has its case; the assertion behind the switch is dead. |
| `Xxh64.Finalize` | src/xxhash.c:700-808 | The finalizer computes the tail of the description, then the avalanche. |
| `Xxh64.OneShot` | src/xxhash.c:810-852 | The one-shot code computes the hash of the description. |
| `Xxh64Values.IshmaelHash` | src/xxhash.c:810-852 | The 63 bytes "Call me Ishmael. Some years ago--never mind how long precisely-", one stripe and a tail with units of eight, four and one, hash to the published 0x02A2E85470D6FD96. |
| `Xxh64Values.SanityHash` | src/xxhash.c:810-852 | 101 bytes of xxHash's own sanity check, three stripes, with its seed 2654435761, hash to the published 0xCAA65939306F1E21. |
| `Xxh64Values.ShortHash` | src/xxhash.c:844-851 | The first 14 of them, below one stripe, with the same seed, hash to the published 0x5B9611585EFCC9CB. |
| `Xxh64.StripesResume` | src/xxhash.c:911-967 | The lanes over a concatenation are the lanes resumed from the first part with its unprocessed rest. |
| `Xxh64.State.Reset` | src/xxhash.c:898-908 | The state of the empty input. |
| `Xxh64.State.Feed` | src/xxhash.c:923-964 | Buffer and lanes after any chunk: lanes over all whole stripes of what was buffered and the chunk, buffer with the rest. |
| `Xxh64.State.Update` | src/xxhash.c:911-967 | The state of the data so far becomes the state of the data with the chunk appended; a null input is an error and changes nothing. |
| `Xxh64.State.Digest` | src/xxhash.c:980-1002 | The digest of the state is the hash of all data fed. |
| `Xxh64.Stream` | src/xxhash.c:898-1002 | Reset, one update per chunk and digest give the hash of the concatenation, however the input was split. |
| `Xxh64.RoundInverts` | src/xxhash.c:671-677 | A round can be undone in either argument. |
| `Xxh64.RoundOnto` | src/xxhash.c:671-677 | Every value is reached by a round from any accumulator and from any input, so a round permutes each. |
| `Xxh64.AvalancheInverts` | src/xxhash.c:687-695 | The avalanche is a permutation. |
| `Xxh64.TailCancels` | src/xxhash.c:700-803 | Equal results over the same tail come from equal accumulators. |
| `Xxh64.TailsDiffer` | src/xxhash.c:714-727 | Tails that differ in one unit give different accumulators. |
| `Xxh64.NoTailCollision` | src/xxhash.c:687-808 | Inputs of one length with the same whole stripes that differ in exactly one tail unit have different hashes. |
| `Xxh64.SeedsNeverCollide` | src/xxhash.c:844-851 | Below 32 bytes, different seeds give different hashes. |
| `Xxh32.RowTakes` | src/xxhash.c:306-348 | As for XXH64, with units of four bytes and one. |
| `Xxh32.Finalize` | src/xxhash.c:290-348 | The finalizer computes the tail of the description, then the avalanche. |
| `Xxh32.OneShot` | src/xxhash.c:352-389 | The one-shot code, with its limit of end minus 15, computes the hash of the description. |
| `Xxh32Values.IshmaelHash` | src/xxhash.c:352-389 | The same 63 bytes, three stripes and a tail with units of four and one, hash to the published 0x6F320359. |
| `Xxh32Values.SanityHash` | src/xxhash.c:352-389 | The same 101 bytes, six stripes, with the same seed, hash to the published 0x498EC8E2. |
| `Xxh32Values.ShortHash` | src/xxhash.c:352-389 | The same 14 bytes, below one stripe, with the same seed, hash to the published 0x4481951D. |
| `Xxh32.StripesResume` | src/xxhash.c:452-511 | The lanes can be resumed. |
| `Xxh32.State.Update` | src/xxhash.c:452-511 | The state of the data becomes the state of the data with the chunk appended, with a length that wraps and a large-length flag that sticks. |
| `Xxh32.State.Digest` | src/xxhash.c:526-542 | The digest is the hash of all data fed, for totals past 2^32 as well. |
| `Xxh32.Stream` | src/xxhash.c:437-542 | Streaming gives the hash of the concatenation for every split and every length. |
| `Xxh32.RoundInverts` | src/xxhash.c:269-275 | A round can be undone in either argument. |
| `Xxh32.RoundOnto` | src/xxhash.c:269-275 | Every value is reached by a round from any accumulator and from any input. |
| `Xxh32.AvalancheInverts` | src/xxhash.c:278-286 | The avalanche is a permutation. |
| `Xxh32.NoTailCollision` | src/xxhash.c:278-348 | One tail unit apart, no collision. |
| `Xxh32.SeedsNeverCollide` | src/xxhash.c:382-388 | Below 16 bytes, different seeds give different hashes. |
| `Arena.CreatedIsPartition` | src/dict.c:54-61 | After creation the free chain holds every slot and all buckets are empty. |
| `Arena.FreeSlotLeft` | src/dict.c:121-124 | Below the load limit the free chain is not empty, so an insertion never takes slot -1. |
| `Arena.InsertKeepsPartition` | src/dict.c:103-118 | An insertion keeps free chain and bucket chains acyclic, ending in -1, and holding each slot once. |
| `Arena.DeleteKeepsPartition` | src/dict.c:201-217 | So does the unlinking of any position of any chain. |
| `Arena.InsertPushes` | src/dict.c:103-118 | An insertion pushes on the stack of its key and leaves every other stack alone. |
| `Arena.DeletePops` | src/dict.c:201-217 | Unlinking the first match pops the stack of its key and leaves every other stack alone. |
| `Arena.DeleteUndoesInsert` | src/dict.c:103-205 | Deleting what was just inserted restores count, free list head, bucket heads and links; the record's bytes stay in the freed slot. |
| `Dict.Table.constructor` | src/dict.c:31-62 | The table with every stack empty. |
| `Dict.Table.Insert` | src/dict.c:95-127 | The push, and the exit of the load test exactly when the limit is reached. |
| `Dict.Table.InsertAuto` | src/dict.c:129-157 | The push of the slot number itself. |
| `Dict.Table.Search` | src/dict.c:160-188 | The top of the key's stack, or -1 for an empty one. |
| `Dict.Table.Delete` | src/dict.c:193-220 | The pop; no match leaves everything alone; an empty bucket is read out of bounds, and nothing else is. |
| `Dict.DeleteInNew` | src/dict.c:193-220 | In a table just created every deletion is out of bounds. |
| `Dict.InsertDeleteRoundTrip` | src/dict.c:95-220 | An insertion and a deletion of the same key restore links, lists and counters. |
| `Dict.Run` | src/dict.c:95-220 | A whole run of insertions and deletions ends with the stacks the same run leaves in a map from keys to stacks, unless it exits. |
| `RankTable.LinesAreNewlines` | src/server.c:108-113 | Counting newlines counts the lines. |
| `RankTable.ReadHostList` | src/server.c:97-135 | Every complete line gets its index as rank, and a table of twice the size never trips the load test. |
| `RankTable.TopRank` | src/server.c:322-331 | The top of a name's ranks is the index of its last line. |
| `RankTable.Rank` | src/server.c:322-331 | The rank answered to a client: the index of the last line with its name, or -1. |
| `RateLimiter.Throttle.Update` | src/ooops.c:549-603 | One call: gate, counters, ring slot and final stamp, in terms of the true history of stamps. It is delayed if and only if it is not among the first four and was slow itself or comes less than 3/F minus a tenth of a microsecond after the call three before it; the sleep is what is missing to 3/F, rounded toward zero to nanoseconds. |
| `RateLimiter.SpacedUndelayed` | src/ooops.c:583-601 | Calls that are not slow and keep 3/F to the third call before them are never delayed. |
| `RateLimiter.Throttle.Run` | src/ooops.c:488-543 | A run keeps ring, counters and history together. |
| `RateLimiter.RunPaced` | src/ooops.c:583-601 | With a clock that does not run backwards and full sleeps, call i+3 comes at least 3/F - 1.001 microseconds after call i, for every i from 1 on. |
| `RateLimiter.WindowBound` | src/ooops.c:583-601 | A window of length W holds at most 3 floor(W / pace) + 3 of the calls after the first. |
| `RateLimiter.CallsCounted` | src/ooops.c:583-601 | The count the bound is about is the number of these calls with their stamp in the window. |
| `RateLimiter.SameSlot` | src/ooops.c:514-525 | Two call numbers share a ring slot if and only if they differ by a multiple of 512. |
| `Tickets.RunKeepsInv` | src/ooops.c:506-541 | The invariant of all interleavings over all servers: mutual exclusion by the one mutex, values read inside it are current, tickets are owned, the ledger of delayed calls of each server adds up. |
| `Tickets.TicketsConsecutive` | src/ooops.c:563-567 | In every interleaving the tickets of a server are 0, 1, 2 and so on, and no two threads have the same one. |
| `Tickets.OneSleeper` | src/ooops.c:594-599 | At most one thread sleeps at a time, whatever servers the calls are for. |
| `Tickets.DelayedBound` | src/ooops.c:583-598 | The delayed counter of a server never exceeds its call counter minus 4, or 0. |
| `Tickets.SlotShared` | src/ooops.c:571-585 | Two calls to one server under way use one ring slot if and only if their tickets differ by a positive multiple of 512. |
| `Tickets.LeftAlone` | src/ooops.c:563-601 | Wherever a thread stands in its call: left to itself, with no other thread in the mutex, it ends the call, and its server has one call more if the ticket was not yet drawn, one delayed call more exactly if the ticket is above 3 and it wants to sleep; nothing else changes. |
| `Tickets.CallCompletes` | src/ooops.c:563-601 | So a whole call draws the next ticket, is counted as delayed exactly if this is above 3 and it wants to sleep, and leaves the mutex free. |
| `Tickets.EveryCallEnds` | src/ooops.c:563-601 | From every reachable state every call can end, behind that of the thread in the mutex; the other threads need not move. |
| `Params.InvKept` | src/ooops.c:1301-1376 | Every step of creator, publisher or reader keeps the invariant of the publication protocol. |
| `Params.Agreement` | src/ooops.c:1256-1343 | Over all interleavings with single-threaded processes: once ready, with no publisher between write and stamp, a process that is not copying and has the current stamp has the current parameters of every tagged server. |
| `Params.IdleExactly` | src/ooops.c:494-494 | An idle thread passes the stamp test if and only if its process has another stamp than the shared one. |
| `Params.CatchesUp` | src/ooops.c:1301-1343 | Left to itself, a thread whose process has another stamp, or one that waits while the memory is ready, ends idle. With the limits on, its process is active and has the shared stamp and the shared parameters of all tagged servers and of no others; with the limits off, it is inactive and otherwise unchanged. |
| `Params.LimitsArrive` | src/ooops.c:1301-1343 | New limits arrive: from every reachable state with thread and publisher idle, a publication and then a call of the thread give its process the new parameters of the flagged servers, as far as they are tagged. |
| `Params.PubRuns` | src/set_io_param.c:228-247 | A publisher on its way, left to itself, stores exactly the flagged parameters still to come, enables, and stamps. |
| `Params.Publishes` | src/set_io_param.c:228-247 | A whole publication: exactly the flagged parameters are the new ones, the limits are on, and the stamp is the clock. |
| `Params.MakerRuns` | src/ooops.c:1345-1376 | The creator left to itself ends with the configured tags and parameters in place, a stamp, and the ready flag. |
| `Params.Settles` | src/ooops.c:1256-1264 | Every initial state has a run to a settled one: ready, enabled, tags and parameters as configured, nobody attached yet. |
| `Params.CopyRuns` | src/ooops.c:1325-1342 | A copying reader left to itself finishes: the positions to come are the shared ones if their server is tagged, all others stay as they are. |
| `Params.SwitchKept` | src/ooops.c:1305-1315 | Every step from a state without a gap keeps: a process that has, or has loaded, the current stamp is active, and the limits are on or a stamp is still to come. |
| `Params.SwitchAgrees` | src/ooops.c:1256-1343 | Over all interleavings with single-threaded processes: a process that is idle with the current stamp and disagrees with the switch, though no publisher has a stamp to store, is found only in runs that came through a gap, the limits off with no stamp to come and a reader between switch test and stamp load. |
| `Params.GapAlwaysHarms` | src/ooops.c:1305-1315 | Every run that reaches a gap can be continued from its first gap to a process that misses the switch. |
| `Params.PatientAgrees` | src/set_io_param.c:228-247 | A run in which no stamp is stored while a reader is between switch test and stamp load never misses the switch. |
| `Params.SwitchMissed` | src/ooops.c:1305-1315 | From every settled state there is a run after which a process is active under the current stamp while the limits are switched off. |
| `Params.TwoThreadsDisagree` | src/ooops.c:1325-1333 | From every settled state with two threads in a process there is a run after which the process has an old parameter under the current stamp. |
| `Tables.WellFormedExists` | libudis86/itab.c:5031-5060 | The requirements on the tables can be met. |
| `ModRm.RoundTrip` | libudis86/decode.c:499-616 | For 16-, 32- and 64-bit addressing, every base, index, scale and displacement, every encoding sections 2.1.5 and 2.2.1 of the Intel SDM, volume 2A, give for it, and whatever the REX bits without meaning are: the bytes decode back to the operand and their number is what the decoder takes, if and only if it is not a 32-bit form without base with REX.B set. |
| `ModRm.EveryOperand` | libudis86/decode.c:499-616 | Every operand the decoder makes of bytes behind a ModRM byte for memory is what one of these forms means, but for that one case. |
| `ModRm.Bare32Lost` | libudis86/decode.c:559-596 | mod 0 and r/m 5 with REX.B in 32-bit addressing is taken for r13d without displacement. |
| `ModRm.MeantInjective` | libudis86/decode.c:520-616 | Operands tell the addressing forms of an address size apart. |
| `Assembler.AssembledDecodes` | libudis86/decode.c:1076-1108 | Assembled, then decoded: wherever in the input the bytes of an instruction with a register and a register or memory operand and perhaps an immediate stand, in any mode, with any prefixes, every register, every addressing form in every encoding, the decoder takes exactly these bytes, finds the entry of the opcode, and gives the operands meant, in the order and the size of the entry. |
| `Assembler.DisassembleAssembled` | libudis86/udis86.c:67-81 | And so does ud_disassemble, with the input in a buffer or behind a hook. |
| `Assembler.OperandsDecoded` | libudis86/decode.c:798-811 | The three operands of such an instruction, one behind the other. |
| `Encodings.RegisterRoundTrip` | libudis86/decode.c:352-411 | Each of the registers 0 to 15, its low bits in r/m, reg or the opcode and its high bit in the REX bit that goes with the field, under an entry that allows the bit, is decoded as that register: general of its size, spl to dil behind a REX prefix and ah to bh without, or of the class of the operand code. |
| `Encodings.ImmediateRoundTrip` | libudis86/decode.c:421-434 | An immediate or jump displacement of 8 to 64 bits is the value whose bytes stand there, and takes them. |
| `Encodings.OffsetRoundTrip` | libudis86/decode.c:624-631 | So is an address without a ModRM byte. |
| `Encodings.PointerRoundTrip` | libudis86/decode.c:331-346 | And a far pointer, from its offset and its segment. |
| `Encodings.FixedOperands` | libudis86/decode.c:703-785 | Accumulator forms, segment registers, the floating-point stack and the constants 1 and 3 are the operands they stand for and take no bytes. |
| `Encodings.SizesMeant` | libudis86/decode.c:857-907 | Operand and address size for the operands in every mode, from 66, 67, REX.W as far as the entry allows it, and the default of the entry; and what the size codes of the tables make of them. |
| `Encodings.SizePair` | libudis86/decode.h:138-148 | Of a pair of sizes the register size counts with mod 3, otherwise the memory size. |
| `Walk.EffRexBits` | libudis86/decode.c:876-877 | Each of the four bits of the effective REX prefix is that of the prefix byte if the entry allows it, otherwise 0; a prefix stays one, and none stays none. |
| `Encodings.SlotReached` | libudis86/decode.c:1006-1050 | Which entry a table leads to: that of the opcode extension in the reg field, of r/m, of mod 3 or not, of the last 64 ModRM bytes in order, of the mode, the sizes 16, 32 and 64 in order, or the vendor; for the first four the ModRM byte is taken. |
| `Encodings.PrefixReached` | libudis86/decode.c:952-984 | Which entry a prefix table leads to: no prefix to slot 0, F2 to 1, F3 to 2, and without these 66 to 3; the prefix is used up, 66 beside F2 or F3 is not; from an empty slot to slot 0 with all prefixes. |
| `Encodings.SegmentCounts` | libudis86/decode.c:219-236 | Of several segment prefixes the last counts. |
| `Encodings.SegmentCodes` | libudis86/decode.c:219-236 | 26, 2E, 36, 3E, 64 and 65 stand for es, cs, ss, ds, fs and gs. |
| `Decoder.Ud.InpNext` | libudis86/decode.c:80-101 | The next byte of the input, recorded in the session buffer when it comes from the hook, or the end of input. |
| `Decoder.Ud.InpUint` | libudis86/decode.c:115-167 | Little-endian values. |
| `Decoder.Ud.Modrm` | libudis86/decode.c:267-274 | The ModRM byte is read once and then remembered. |
| `Decoder.Ud.DecodeReg` | libudis86/decode.c:352-411 | The register of a class and number; only segment numbers 6 and 7 are an error. |
| `Decoder.Ud.DecodeModrmReg` | libudis86/decode.c:474-481 | The reg field, extended by REX.R: the register of the class, and an error just for a segment register that does not exist. |
| `Decoder.Ud.DecodeImm` | libudis86/decode.c:421-434 | An immediate takes the bytes of its resolved size and is their little-endian value. |
| `Decoder.Ud.DecodeA` | libudis86/decode.c:331-346 | A far pointer: offset of two or four bytes, then segment. |
| `Decoder.Ud.DecodeMemDisp` | libudis86/decode.c:442-464 | A displacement of the given width. |
| `Decoder.Ud.MemFields` | libudis86/decode.c:520-558 | The step-by-step computation of base, index, scale and displacement width in 64-bit addressing is the one the round trip is about. |
| `Decoder.Ud.MemFields32` | libudis86/decode.c:560-596 | So is that in 32-bit addressing. |
| `Decoder.Ud.MemFields16` | libudis86/decode.c:597-611 | And that in 16-bit addressing. |
| `Decoder.Ud.DecodeModrmRm` | libudis86/decode.c:491-616 | The operand is a register of the class or memory by the mod field, takes the bytes of its addressing form, and is what these bytes decode to, in all three address sizes. |
| `Decoder.Ud.DecodeMemory` | libudis86/decode.c:652-728 | An operand that must, or must not, be a register is an error just if it is not what it must be, and takes its bytes all the same. |
| `Decoder.Ud.DecodeOperand` | libudis86/decode.c:637-785 | One operand takes exactly the bytes of its operand code, size and modes, is an error just in the cases of the code, leaves the other operands alone, and is, kind, size, registers, scale, displacement and value, the operand the round trips are about. |
| `Decoder.Ud.DecodeOperands` | libudis86/decode.c:798-811 | Three operands, each as its entry says under the one ModRM byte, take exactly the bytes of the three one behind the other. |
| `Decoder.Ud.ResolveMode` | libudis86/decode.c:857-907 | Operand size, address size and effective REX bits, or an error for an instruction not valid in 64-bit mode. |
| `Decoder.Ud.ResolveMnemonic` | libudis86/decode.c:292-322 | xchg of ax or eax with itself becomes nop, nop behind F3 becomes pause, swapgs outside 64-bit mode is an error. |
| `Walk.SizesAgree` | libudis86/decode.c:857-907 | The address size for the operands is the one the lookups went by; the operand size is if and only if, in 64-bit mode, the entry keeps REX.W or makes up for it by its default, a 66 was not consumed by a prefix table, and without both the entry does not default to 64 bits; in the other modes if and only if no 66 was consumed. |
| `Samples.PushSizesDiffer` | libudis86/itab.c:6986-6986 | For push rax the lookups go by 32 bits, the operand has 64. |
| `Decoder.Ud.Slot` | libudis86/decode.c:1006-1041 | The index chosen for a table is the one the mode, the prefixes, the vendor or the ModRM byte call for, and within the table, the x87 index because its table is only reached with mod 3. |
| `Decoder.Ud.DecodeExt` | libudis86/decode.c:994-1050 | The walk ends, because table numbers rise, with every index in range, at the entry the bytes lead to. |
| `Decoder.Ud.DecodeSsePfx` | libudis86/decode.c:952-984 | So does the walk through prefix tables; of the prefixes the one that chose the slot is consumed. |
| `Decoder.Ud.Decode3dnow` | libudis86/decode.c:934-949 | The operands come first; then the last byte names the instruction: its mnemonic is that of the entry in that slot. |
| `Decoder.Ud.DecodeOpcode` | libudis86/decode.c:1053-1069 | At most two more opcode bytes, and the entry they lead to. |
| `Decoder.Ud.DecodePrefixes` | libudis86/decode.c:203-264 | The longest run of prefixes is taken, the flags say which there were, of F2 and F3 the later counts, of the segment prefixes the last, REX only as the last prefix; an error of 15 bytes if and only if there are 14 prefixes or more. |
| `Decoder.Ud.EndInsn` | libudis86/decode.c:1084-1107 | An error leaves the invalid instruction without operands and prefixes; otherwise a segment prefix stays only with a memory operand among the first two or where the entry says so. |
| `Decoder.Ud.DecodeOne` | libudis86/decode.c:1076-1108 | Unless the input ends, one instruction takes exactly the bytes, names the entry, and has mnemonic, operands, string, segment and lock prefixes and far mark that the decoding functions give for its position; never more than 42 bytes. Offset and program counter move by these, and no byte means the end of input. |
| `Walk.LengthIsSum` | libudis86/decode.c:1076-1108 | The number of bytes of an instruction valid in its mode: prefixes, opcode bytes, the ModRM byte if walk or operands need it, for each operand SIB byte and displacement, immediate or far pointer, and the last byte of a 3dnow instruction. |
| `Walk.OpcodeAtMost3` | libudis86/decode.c:1053-1069 | At most three opcode bytes. |
| `Samples.MovTakes` | libudis86/itab.c:7140-7140 | The move of an immediate of full size behind n prefixes 66, up to 12, and REX.W takes n + 10 bytes, 22 with 12 of them, and is no error. |
| `Samples.DisassembleMov` | libudis86/udis86.c:67-81 | And ud_disassemble takes them. |
| `Samples.Takes42` | libudis86/decode.c:1076-1108 | With tables that meet the requirements an instruction can take all of 42 bytes. |
| `Decoder.Ud.Disassemble` | libudis86/udis86.c:67-81 | Nothing after the end of input, otherwise one instruction, of exactly the length and contents the decoding functions give, or the end. |
| `Decoder.Ud.InsnBytes` | libudis86/udis86.c:189-206 | The bytes named by pointer and length are those consumed, whether they come from the buffer or from the session buffer. |
| `Decoder.DisassembleAll` | libudis86/udis86.c:67-81 | A run over any input splits it into contiguous instructions, each offset plus length giving the next offset and each as long as the decoding function says unless the input ends with it, with no byte lost. |

## Left out

- Isa.TrampolineSimulates: the machine has no short relative branches, no relative calls, no jumps through memory behind a prefix, and no other instructions that depend on their own address; the code does not relocate the branches and calls either.
- Installer.Hooker.InstallHook: address lookup and block allocation are inputs, mprotect and its failures (a write in front of a block is taken to succeed), the two unused record fields and registration itself are not modelled; entries are assumed five bytes apart, and no function to hook to lie within 30 bytes in front of a block whose first slot gets a window filled by a rip-relative instruction (`Installer.StraysClear`).
- Installer.Hooker.InstallThenUninstall: identity on code memory; the patch blocks, which munmap removes, keep their bytes in the model.
- Placement.Allocator.Allocate: mmap is assumed to return the address asked for; addresses are unbounded naturals.
- Placement.Maps.GetModuleMaps: parsing of the map text; names are not cut to the length of their buffer.
- Xxh64.State.Digest: past 2^64 bytes the length field wraps, and the claim is made only where the wrapped length is still 32 or more.
- Xxh64.OneShot: alignment and big-endian variants and the null-pointer build option, for XXH32 as well.
- Dict.Table.Insert: keys of 16 characters or more, which overrun their element; the load test is taken over rationals, and the hash of a key (XXH64 with seed 0) is a parameter.
- Dict.Table.constructor: creation with size 0, which attaches to an existing table; DictSearch's hash out-parameter.
- RankTable.ReadHostList: files with zero bytes, and lines of 16 characters or more.
- RateLimiter.RunPaced: parameters fixed during the run; rates over many threads, where stamps are written outside the mutex.
- Tickets.RunKeepsInv: the mutexes are assumed not to be initialised again during the run, and counters not to overflow.
- Params.Agreement: names of tagged servers are not copied in the model; memory is sequentially consistent and stamps from the time stamp counter are distinct.
- Decoder.Ud.DecodeOperand: assertions on register sizes are not modelled.
- Decoder.Ud.DecodeOne: when the input ends inside an instruction, only that all of it is taken.
- Decoder.Ud.DecodePrefixes: the uninitialised first value of `curr` is taken to be 0.
- Tables.WellFormedExists: the generated tables themselves are an abstract value.
- Printers, mnemonic names, job-script rewriting, the config file, sockets, epoll, ELF and /proc parsing.
- Aggregation of counters on the server.
