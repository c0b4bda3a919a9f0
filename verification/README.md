# A verified model of libdce

libdce lets processes on the host open codec engines and run video decoders on a coprocessor. This project models the
parts of it that hold state and arithmetic, and proves what they are there for.

| file | models |
|---|---|
| `CodecEngine.dfy` | the codec engine as an automaton over the calls it receives, with the contract of its headers; it knows nothing of clients and judges the rest |
| `Registry.dfy` | the server's table of clients: what one operation makes of it, its laws, crash cleanup in closed form |
| `Cleanup.dfy` | the two cleanup loops, which call handlers that modify the arrays being scanned, turn by turn |
| `Server.dfy` | the table as a class with its RPC handlers on aliased message bytes, and the obituary callback |
| `Stubs.dfy` | the client's stubs: message built, handler run in place on the same bytes, results taken out |
| `Runs.dfy` | any run of requests and obituaries, with clients turned away, slots outgrown and releases in any order: the table against books of who owns what |
| `Contract.dfy` | runs judged by the contract of the codec engine, and the refinement for clients within the limits |
| `Releases.dfy` | what releases in an unusual order, or of handles that are not the client's, do to its slot |
| `Transport.dfy` | `init` and `deinit` of the client library over all runs |
| `SharedBlocks.dfy` | blocks shared with the coprocessor: `dce_alloc`, `dce_free`, `virt2ducati`, `dce_clean` |
| `RemoteCalls.dfy` | calls that pass such blocks: translated on one side, written back on the other |
| `Heap.dfy`, `PersistentAlloc.dfy` | the coprocessor heap, and allocation of memory records with hidden headers and rollback |
| `TiledMemory.dfy` | two-block resources built on top of it |
| `BufferPool.dfy`, `Decoder.dfy` | the decoder's linked list of free buffers, and the decode loop against any codec |
| `Nv12.dfy` | frame sizes, the two-plane layout, and the crop written to file |
| `Player.dfy` | sizing and decode loop together |
| `Ivahd.dfy` | use counting of the accelerator, and all interleavings of worker tasks |
| `Words.dfy`, `Arithmetic.dfy` | little-endian words and C strings in byte memory; products and remainders |

The main results are these.

* **The registry refines its meaning** (`Contract.RunRefinesMeaning`). Over every run of opens, closes, creates, controls,
  processes, deletes and obituaries by clients that keep to the rules and to N clients with K handles of a kind each, the
  table is exactly the map from process to live handles, and every call the codec engine gets meets its contract. Nothing
  outlives its process (`Contract.NothingOutlivesItsProcess`).
* **The books are right over any run** (`Runs.RunKeepsBooks`). With clients turned away, more handles than fit, and
  releases in any order, each reference count is exact, what is tracked is live, an unused slot is empty, and a client is
  refused exactly when N processes are resident (`Runs.SlotLaws`, `Runs.SeatedCounts`). Cleanup at any moment leaves exactly
  what had not fitted (`Runs.ObituaryLeavesLeftovers`). Over the same runs the log meets the contract of the codec
  engine if and only if no engine is closed, by a client or by cleanup, under a live codec and nothing dead is used
  (`Contract.RunMeetsContractIff`).
* **Crash cleanup** (`Server.DceServer.CleanupCallback`) deletes each tracked codec once and then closes each tracked
  engine once, from any table that any messages can have produced, although the handlers it calls edit that table.
* **Remote calls are transparent** (`Stubs`). Each stub, with the handler's in and out structures overlaid in the same
  bytes, has the effect of one request of a run, with the same result; names of at most 23 characters always arrive,
  longer ones under an exact condition. What the server writes back are the user's bytes of the blocks that the client
  passed (`RemoteCalls`).
* **Memory goes back** (`PersistentAlloc.AllocUseFree`, `TiledMemory.GetUseFree`). Whatever the owners write into their
  own regions, and whichever allocation fails, the heap ends with exactly the blocks it began with; only a size that
  wraps around leads astray.
* **Buffers are owned by one side** (`Decoder.Decode`, and `Player.Play` for the number of buffers that sizing gives). The
  decode loop over a list that is relinked in place computes a short specification: all that a codec reports is shown,
  call by call, and no buffer is lost, doubled, shown while it may be reused, or freed while the codec holds it.
* **The crop is exact** (`Nv12.ShowBuffer`), however `write` splits the rows, for every region with an even corner, and
  for no other (`Nv12.CropIff`).
* **Clock and count agree** over all interleavings of any number of workers (`Ivahd.CountAndClockAgree`).

Some expectations are false of the code. Lemmas say exactly when each holds, and give an input on which it fails.

* `init` returns early without counting the second opener, so the first of two closes cuts off the other engine:
  `Transport.NeverCutOffIff`, `Transport.OpenOpenClose`.
* Only the engine path gives up a slot. As many releases as there are references give it up if and only if the last is
  an engine's (`Releases.GivenUpIffEngineLast`); with one engine closed before its codec the slot stays, obituary or
  not, until the process opens and closes another engine (`Releases.OrderMatters`).
* Releasing a handle that is not the client's costs a reference. Exactly which releases leave a slot that the obituary
  frees and empties, also when the client has outgrown it: `Releases.EngineReleaseCleanIff`,
  `Releases.LastEngineReleaseCleanIff`, `Releases.CodecReleaseCleanIff`; an outgrown slot that looks clean too early:
  `Releases.OutgrownAndForgotten`.
* Cleanup closes an engine under a codec exactly when a codec it does not track sits on an engine it does:
  `Contract.CleanupAllowedIff`, `Releases.StrandedCodec`. It frees the slot exactly when an engine is tracked and the
  count is that of the tracked handles: `Registry.CleanupFreesIff`.
* A name of 24 bytes or more arrives whole only if stale bytes spell its rest and end it: `Words.NameArrivesIff`,
  `Words.UnendedName`.
* Alignments below the header size that do not divide it are not met: `PersistentAlloc.BaseAlignedIff`,
  `PersistentAlloc.MisalignedBase`. A padded size that wraps around asks for a block that does not hold header and user
  region: `PersistentAlloc.CoversIffNoWrap`, `PersistentAlloc.WrappedRequest`.
* The chroma written is the region's exactly when both coordinates of its corner are even: `Nv12.CropIff`,
  `Nv12.ChromaOffsetIff`, `Nv12.OddTopMissed`, `Nv12.OddLeftMissed` (an odd left column swaps U and V). Huge frames give a
  bad buffer count, or a division by zero: `Nv12.NumBuffersInRangeIff`, `Nv12.HugeFramesDivideByZero`.

What the outside decides is a parameter: the handles and results the codec engine answers with (`answer`, `ec`, `ret`), the
former bytes of a message (`stale`) and those behind it (`beyond`), the address an allocator returns, the codec's
choices (`answers`), the pieces `write` makes of a row (`wishes`), the scheduler's choices (`schedule`). Numbers of clients and of handles per
client are parameters too.

## Model

| member | source | states |
|---|---|---|
| Contract.RunRefinesMeaning | dce.c:195-323 | within N clients and K handles of a kind each, after every run the table represents exactly the live handles of each process, with exact counts, and every call to the codec engine met its contract |
| Contract.InStepMeans | dce.c:195-323 | in plain terms: a slot in use lists exactly its process's live handles, each once, and counts them; an unused one is null throughout; the codec engine has exactly the open engines |
| Contract.LimitsAreProper | dce.c:195-323 | runs within the limits are among those of the general theorems, with every handle registered and the contract obeyed |
| Contract.SessionFits | dce.c:346-834 | opening, creating and dying is such a run |
| Contract.EventsCarryPid | dce.c:352-830 | every call into the codec engine is made in the environment of the process that asked for it or died |
| Contract.NothingOutlivesItsProcess | dce.c:796-834 | after an obituary the process has no slot and no live handle, and each handle it held has been released as often as it was given out |
| Runs.RunKeepsBooks | dce.c:203-323 | after every run in which handles given out are new and processes release only what is theirs, in any order, with refused clients and outgrown slots: resident pids differ, an unused slot is empty, counts equal the number of registered live handles, and tracked handles are live and the process's own |
| Runs.BooksStep | dce.c:346-834 | one such request of any kind keeps the books right |
| Runs.SlotLaws | dce.c:232-241 | at every moment of such a run an unused slot is empty, and a stranger is refused exactly when N processes are resident, which changes nothing |
| Runs.CountsAreHandles | dce.c:214-323 | the count of a process without an unregistered handle is the number of all its live handles |
| Runs.SeatedCounts | dce.c:214-323 | when every client obtained a slot, this holds for all, also beyond capacity |
| Runs.SeatedMeansKnown | dce.c:232-241 | then no live handle is unregistered |
| Runs.ObituaryLeavesLeftovers | dce.c:796-834 | at every moment of such a run, cleanup leaves the slot free and empty, or with a count of exactly the registered handles that had never fitted |
| Runs.SettledMeans | dce.c:796-834 | in plain terms: null entries, and pid and count as said |
| Contract.RunMeetsContractIff | packages/codec_engine/ti/sdo/ce/Engine.h:445-455 | after every such run the codec engine holds exactly the live handles, and all calls met its contract if and only if no engine was closed under a live codec and nothing dead was used |
| Contract.StepMeetsContractIff | packages/codec_engine/ti/sdo/ce/Engine.h:445-455 | the same for one request |
| Contract.ServeKeepsInStep | dce.c:346-834 | one request within the limits keeps table, meaning and contract in step |
| Runs.LeftoversCounted | dce.c:796-834 | after cleanup the slot is free and empty if there was an engine and everything had fitted; otherwise it is taken, with empty arrays and a count of exactly the handles that never fitted |
| Contract.CleanupAllowedIff | dce.c:796-834 | cleanup meets the contract of the codec engine if and only if no codec it does not track sits on an engine it does, and leaves exactly the untracked handles live |
| Runs.OneSlotPerProcess | dce.c:203-323 | whatever requests arrive, legal or not, no two slots are held by the same process |
| Contract.FittingIsAsMeant | dce.c:214-246 | a client within the limits is never turned away, and its obituary releases all it has |
| Contract.ResidentsAreOwners | dce.c:203-275 | the pids in the table are exactly those of the processes that own an engine |
| Runs.KeptByFirstOpen | dce.c:232-241 | claiming an unused slot loses nothing and records the new client exactly |
| Runs.KeptByNextOpen | dce.c:220-231 | a further engine keeps the table exact |
| Runs.FurtherEngineAdded | dce.c:220-231 | a further engine is counted always, and tracked exactly if its row has room; nothing else changes |
| Runs.FurtherCodecAdded | dce.c:283-296 | the same for a codec |
| Runs.KeptByClose | dce.c:248-275 | closing a live engine, with or without codecs, keeps the table exact, and gives the slot up only when nothing is left |
| Runs.KeptByCreate | dce.c:277-298 | a new codec keeps the table exact |
| Runs.KeptByDelete | dce.c:300-323 | deleting a live codec, before or after its engine, keeps the table exact |
| Runs.KeptByCleanup | dce.c:796-834 | cleanup keeps the table exact for every other client and for the handles that remain |
| Contract.EventsAllowedIff | packages/codec_engine/ti/sdo/ce/Engine.h:445-455 | what a request makes the server do is allowed by the contract exactly when it uses live handles, gets new ones and closes no engine in use; it leaves the codec engine with the handles then owned |
| Releases.GivenUpIffEngineLast | dce.c:248-323 | as many releases as there are references, of whatever handles, give the slot up if and only if the last is an engine's; otherwise it stays taken without a reference |
| Releases.OrderMatters | dce.c:300-323 | one engine and one codec: codec first frees the slot; engine first leaves it taken, also by the obituary, until another engine is opened and closed |
| Releases.EngineReleaseCleanIff | dce.c:248-275 | after closing a handle the obituary leaves the slot clean if and only if an engine is still tracked and as many handles had not fitted as are miscounted: none if the handle is tracked, one if not |
| Releases.LastEngineReleaseCleanIff | dce.c:268-271 | at the last reference closing gives the slot up at once; it is empty if and only if nothing else is tracked |
| Releases.CodecReleaseCleanIff | dce.c:300-323 | after deleting a handle the obituary leaves the slot clean if and only if an engine is tracked and as many handles had not fitted as are miscounted |
| Releases.UnfittedIs | dce.c:214-323 | references less tracked handles are the handles that did not fit, when the count is right |
| Releases.OutgrownAndForgotten | dce.c:248-275 | an input on which an outgrown slot is cleaned with an engine still open |
| Releases.StrandedCodec | dce.c:796-834 | an input on which cleanup closes an engine under a codec that did not fit |
| Releases.UnknownCloseSpoilsSlot | dce.c:260-321 | closing or deleting a handle that is not the client's spoils its slot unless exactly one handle had not fitted and, except at the last reference, an engine is tracked; then it does not |
| Registry.RefusedIff | dce.c:232-241 | a new client is turned away exactly when as many different clients are resident as there are slots, and then nothing changes |
| Registry.CleanupFreesIff | dce.c:796-834 | cleanup frees and empties the slot if and only if an engine is tracked and the count is that of the tracked handles |
| Registry.StaysDistinct | dce.c:203-323 | every operation with any handle keeps resident pids distinct |
| Registry.PlaceTracks | dce.c:225-231 | a new handle is tracked once if there is room; a full array stays as it was |
| Registry.ItemsOfClear | dce.c:260-266 | unregistering removes that handle and no other |
| Registry.UsedIsCardinality | dce.c:195-201 | the number of entries in use is the number of different tracked handles |
| Cleanup.CodecStep | dce.c:813-821 | each turn of the codec loop sees its entry as it was on entry and removes just that one |
| Cleanup.EngineStep | dce.c:824-832 | so does each turn of the engine loop, until the slot is given up; from then on nothing changes |
| Cleanup.EngineTurn | dce.c:824-832 | each turn is the effect of the close handler on the table, also once the handler finds no client |
| Cleanup.VisitedAll | dce.c:796-834 | both loops together have the effect given in closed form |
| Cleanup.CleanupInTwo | dce.c:803-832 | the same on the whole table, where other slots stay as they are |
| Cleanup.CleanupEventsMean | dce.c:796-834 | each tracked codec is deleted once and each tracked engine closed once, for the process that died; nothing else is done; no engine is closed before a codec is deleted |
| Cleanup.CleanupTableMeans | dce.c:796-834 | other slots stay as they are; the slot is free and null if an engine is tracked and all that is counted is tracked |
| Cleanup.DeletionsAllowed | dce.c:813-821 | deleting the tracked codecs is allowed and leaves the others |
| Cleanup.ClosingsAllowedIff | packages/codec_engine/ti/sdo/ce/Engine.h:445-455 | closing the tracked engines is allowed if and only if no codec is left on them |
| CodecEngine.AllowsAllSplit | packages/codec_engine/ti/sdo/ce/Engine.h:445-455 | a log is judged the same in one piece or in two |
| CodecEngine.ReleasesBalance | packages/codec_engine/ti/sdo/ce/Engine.h:445-455 | a log that meets the contract releases each handle as often as it was given out, less one while it is live |
| Server.DceServer.constructor | dce.c:195-201 | all slots are unused and empty |
| Server.DceServer.GetClient | dce.c:203-212 | the first slot with that pid, or none |
| Server.DceServer.RegisterEngine | dce.c:214-246 | the scanning loops compute the specified table |
| Server.DceServer.UnregisterEngine | dce.c:248-275 | the same, including an unknown handle |
| Server.DceServer.RegisterCodec | dce.c:277-298 | the same |
| Server.DceServer.UnregisterCodec | dce.c:300-323 | the same |
| Server.DceServer.RpcEngineOpen | dce.c:346-363 | no input is read after an output has overwritten it: call, registration and results are those of the message as it came |
| Server.DceServer.RpcEngineClose | dce.c:424-436 | unregisters and closes the engine named in the message |
| Server.DceServer.RpcCreate | dce.c:492-510 | as for opening; the parameters are written back after creation |
| Server.DceServer.RpcControl | dce.c:574-591 | call, results and write-backs are those of the message as it came |
| Server.DceServer.RpcProcess | dce.c:658-680 | the same, between acquiring and releasing the accelerator |
| Server.DceServer.RpcDelete | dce.c:742-754 | unregisters and deletes the codec named in the message |
| Server.DceServer.CleanupCodecs | dce.c:813-821 | the codec loop deletes each tracked codec once, in order |
| Server.DceServer.CleanupEngines | dce.c:824-832 | the engine loop closes each tracked engine once, in order |
| Server.DceServer.CleanupCallback | dce.c:796-834 | for an obituary: all codecs, then all engines, each once, no other slot touched; for other events nothing |
| Stubs.EngineOpen | dce.c:366-409 | one request of a run with the same handle and error code; a name of at most 23 characters arrives whatever the message held before, a longer one exactly when the bytes behind spell its rest and end it |
| Stubs.DeliveredIff | dce.c:333-409 | at most 23 characters are always read back; from 24 on the name stands in the message with its end if and only if the bytes behind the 24 copied ones spell its rest and end it |
| Stubs.EngineClose | dce.c:439-472 | one request of a run |
| Stubs.Create | dce.c:512-553 | one request of a run with the same handle; the name as for Engine_open |
| Stubs.Control | dce.c:593-636 | one request of a run with the same result |
| Stubs.Process | dce.c:682-727 | one request of a run with the same result |
| RemoteCalls.Create | dce.c:492-553 | with the structure translated by the client and written by the codec, the server cleans exactly its user bytes; a name of at most 23 characters arrives |
| RemoteCalls.Control | dce.c:574-636 | the same for both structures |
| RemoteCalls.Process | dce.c:658-727 | the same for all four |
| RemoteCalls.PassedIsCleaned | dce.c:492-680 | what the server cleans is what the call was passed, in order |
| Stubs.Delete | dce.c:757-788 | one request of a run |
| Stubs.ProcessDied | dce.c:796-834 | the obituary is one request of a run |
| Words.NameArrivesIff | dce.c:333-343 | a copied name stands in memory with its NUL if and only if it is shorter than the copied stretch or the bytes behind spell its rest with a NUL |
| Words.UnendedName | dce.c:333-343 | a 28-byte name whose rest happens to be there, and which nothing ends |
| Words.StoreWord | dce.c:333-343 | a word lands in its four bytes and no other changes |
| Words.LoadWord | dce.c:333-343 | the word last stored there is read |
| Transport.Connection.Init | dce.c:919-944 | the transport is up and the count is 1 afterwards, set-up has kept its turn, and a connection that was up is left alone |
| Transport.Connection.Deinit | dce.c:946-966 | the transport is down afterwards; set-up and tear-down have kept their turns if and only if the count was 1 |
| Transport.Connection.Perform | dce.c:919-966 | any sequence of calls acts as the runs that the lemmas are about, and keeps the connection in order while deinit is not called at zero |
| Transport.CountIsFlag | dce.c:919-966 | while deinit is never called at zero, the count is 0 or 1, it is 1 exactly while the transport is up, and set-up and tear-down alternate |
| Transport.OneAtATime | dce.c:919-966 | a program that closes no engine while another is open always has a transport for its engine |
| Transport.NeverCutOffIff | dce.c:919-966 | a program is never cut off from an open engine if and only if it never closes an engine while it has another |
| Transport.OpenOpenClose | dce.c:919-966 | open, open, close leaves an engine without transport |
| Transport.BelowZero | dce.c:919-966 | two opens and two closes bring the count to -1, and the next two opens each set the transport up |
| SharedBlocks.SharedMemory.Alloc | dce.c:127-148 | a zeroed block of any size with a correct header; other blocks and their headers are untouched |
| SharedBlocks.SharedMemory.WriteUser | dce.c:112-118 | the client's writes leave every header intact |
| SharedBlocks.SharedMemory.HeaderMeans | dce.c:112-118 | right below a pointer given out stand the number of its user's bytes and its translated address |
| SharedBlocks.SharedMemory.Virt2Ducati | dce.c:162-167 | the physical address of the pointer, null for null |
| SharedBlocks.SharedMemory.Clean | dce.c:178-181 | covers exactly the block's user bytes and none of any other block |
| SharedBlocks.SharedMemory.Release | dce.c:153-156 | gives back exactly that block under its original address |
| SharedBlocks.HeaderStable | dce.c:112-118 | a header depends on its eight bytes alone |
| Heap.MemoryHeap.Alloc | ducati/platform/base_image/src/baseimage_ivahd_frwkconfig.c:153-153 | null with nothing changed, or a block that was free, aligned and apart from all others |
| Heap.MemoryHeap.Release | ducati/platform/base_image/src/baseimage_ivahd_frwkconfig.c:187-187 | exactly that block goes |
| PersistentAlloc.AllocFxn | ducati/platform/base_image/src/baseimage_ivahd_frwkconfig.c:126-170 | on success every record has an aligned block of its own with its header; it fails exactly when an allocation is denied, and then the blocks obtained are given back and the live set is as before; other blocks keep their bytes; only a record whose padded size wraps around leads astray |
| PersistentAlloc.AllocatedMeans | ducati/platform/base_image/src/baseimage_ivahd_frwkconfig.c:126-170 | in plain terms: each record aligned to its power of two or to whatever exceeds eight, header and user regions apart by pairs, new blocks besides the old, old blocks intact |
| PersistentAlloc.PlacedMeans | ducati/platform/base_image/src/baseimage_ivahd_frwkconfig.c:133-166 | in plain terms: base less padding is the block's address, and that and the padded size stand in the eight bytes below the base |
| PersistentAlloc.AllocOne | ducati/platform/base_image/src/baseimage_ivahd_frwkconfig.c:139-162 | one record, with the size computed in 32 bits: nothing, or a block with its header, or astray because the size wrapped around |
| PersistentAlloc.FreeFxn | ducati/platform/base_image/src/baseimage_ivahd_frwkconfig.c:172-195 | every block is freed once, with the address and padded size its header holds |
| PersistentAlloc.GiveBack | ducati/platform/base_image/src/baseimage_ivahd_frwkconfig.c:155-158 | freeing what has just been allocated restores the live set |
| PersistentAlloc.AllocUseFree | ducati/platform/base_image/src/baseimage_ivahd_frwkconfig.c:126-195 | allocate, write at will, free: the writes are there, and the live set ends as it was, unless a wrapped size led astray |
| PersistentAlloc.HeadersSurvive | ducati/platform/base_image/src/baseimage_ivahd_frwkconfig.c:116-124 | no writes inside user regions can change a header |
| PersistentAlloc.RegionsApart | ducati/platform/base_image/src/baseimage_ivahd_frwkconfig.c:133-166 | header and user region of one record are apart from those of another |
| PersistentAlloc.PlacedAmongOthers | ducati/platform/base_image/src/baseimage_ivahd_frwkconfig.c:126-170 | allocated records stay placed while others are allocated |
| PersistentAlloc.PlacedIsFreeable | ducati/platform/base_image/src/baseimage_ivahd_frwkconfig.c:172-195 | placed records are freed through headers that lead to exactly their blocks |
| PersistentAlloc.BaseAlignedIff | ducati/platform/base_image/src/baseimage_ivahd_frwkconfig.c:139-160 | the base is aligned if and only if the alignment exceeds the header or divides it |
| PersistentAlloc.PowersOfTwoAlign | ducati/platform/base_image/src/baseimage_ivahd_frwkconfig.c:139-160 | zero and all powers of two are such alignments |
| PersistentAlloc.CoversIffNoWrap | ducati/platform/base_image/src/baseimage_ivahd_frwkconfig.c:139-162 | header and user region lie inside the block obtained if and only if the 32-bit size did not wrap around |
| PersistentAlloc.WrappedRequest | ducati/platform/base_image/src/baseimage_ivahd_frwkconfig.c:145-145 | a record of 2^32 - 4 bytes gets a block of four bytes, which does not hold it |
| PersistentAlloc.MisalignedBase | ducati/platform/base_image/src/baseimage_ivahd_frwkconfig.c:139-160 | alignment 3 is missed |
| TiledMemory.AllocRes | ducati/platform/base_image/src/iresman_tiledmemory.c:53-65 | null with the heap as before, or one new placed block; astray only if size and header wrap around |
| TiledMemory.FreeRes | ducati/platform/base_image/src/iresman_tiledmemory.c:67-78 | frees the block the header names, whatever size is passed |
| TiledMemory.FillHandle | ducati/platform/base_image/src/iresman_tiledmemory.c:141-147 | the handle's fields, and no byte outside the handle |
| TiledMemory.GetHandles | ducati/platform/base_image/src/iresman_tiledmemory.c:109-157 | null with the heap as before, exactly when an allocation is denied, or two new disjoint blocks with a handle that leads to memory of dim0 bytes, or of dim0 times dim1 in 32 bits; astray only if the size wraps around |
| TiledMemory.ResourceSizeIs | ducati/platform/base_image/src/iresman_tiledmemory.c:122-124 | the one dimension, or the product in 32 bits |
| TiledMemory.AreaInside | ducati/platform/base_image/src/iresman_tiledmemory.c:122-128 | byte c of row r of a two-dimensional area lies in its block |
| TiledMemory.FreeHandles | ducati/platform/base_image/src/iresman_tiledmemory.c:159-183 | frees exactly the two blocks, under any dimensions |
| TiledMemory.GetUseFree | ducati/platform/base_image/src/iresman_tiledmemory.c:109-183 | get, write at will through the handle, free under other dimensions: the writes are there, and the live set ends as it was, unless a wrapped size led astray |
| BufferPool.Pool.Allocate | test.c:118-163 | one free buffer for each address, in a list without cycle or repetition |
| BufferPool.Pool.Get | test.c:175-183 | takes the first free buffer; null exactly when none is free |
| BufferPool.Pool.Release | test.c:185-190 | puts a buffer that is not on the list in front |
| BufferPool.Pool.FreeAll | test.c:165-173 | frees each buffer on the list once, in order |
| Decoder.Listed | packages/xdais/ti/xdais/dm/ividdec3.h:702-738 | the IDs before the first zero |
| Decoder.ScanStopsInside | test.c:452-468 | distinct IDs of fewer holders than entries leave a zero in the array, so a scan ends inside it |
| Decoder.Codec.Process | packages/xdais/ti/xdais/dm/ividdec3.h:702-738 | the ownership contract: it takes the buffer it is given and lets go only of what it reports unlocked, in arrays of distinct IDs it holds ended by a zero |
| Decoder.TakeBuffer | test.c:421-425 | the first free buffer passes into the caller's hand; null if and only if the codec holds them all |
| Decoder.ShowReported | test.c:452-463 | every reported output is written, in order, while the codec still holds it |
| Decoder.ReleaseReported | test.c:465-468 | every buffer reported unlocked goes back on the list once, in order |
| Decoder.DecodeTurn | test.c:416-473 | one turn computes one turn of the specification and leaves each buffer with exactly one owner; a call that goes well appends exactly what the codec reports to what is shown and takes back exactly what it lets go of, one that fails shows nothing |
| Decoder.DecodeAll | test.c:416-473 | the loop computes the specification: outcome, buffers shown, list order, buffers held |
| Decoder.DecodedIsOrderly | test.c:118-190 | whatever the codec answers, at the end each buffer is free once or held, and running out means that the codec holds all |
| Decoder.DecodedShows | test.c:416-473 | a codec that keeps to its contract has the outputs of all calls shown in call order, up to the first error, the end of the stream or the last buffer |
| Decoder.ProcessedMeans | test.c:445-468 | one call in terms of its answer |
| Decoder.OutputsAre | test.c:452-463 | the outputs call by call |
| Decoder.HonestMeans | packages/xdais/ti/xdais/dm/ividdec3.h:702-738 | keeping to the contract: only buffers that are held are reported, each once |
| Decoder.SilentIsHonest | packages/xdais/ti/xdais/dm/ividdec3.h:702-738 | a codec that never reports anything keeps to it |
| Decoder.Decode | test.c:286-493 | the same for the whole program: each buffer is freed once unless the codec still holds it, and what is shown is the outputs of the calls made, one more than there are inputs unless an error or a lack of buffers ends the run |
| Player.PoolSizeIff | test.c:318-322 | 3 to 19 buffers are allocated if and only if the 32-bit count of macroblocks is positive or below -32768 |
| Player.PositiveFramesCount | test.c:318-322 | positive dimensions whose macroblocks an int can count are such |
| Player.ReportsEndInside | test.c:452-468 | for such frames both scans end inside their arrays |
| Player.Play | test.c:286-493 | from the dimensions to the end: the decode loop with the number of buffers that sizing gives, three more than the most, up to 16, that hold at most 32768 macroblocks |
| Nv12.MaskingIsLeast | test.c:318-321 | without wrap-around the masks round up to the least multiple |
| Nv12.NumBuffersInRangeIff | test.c:322-322 | there are 3 to 19 buffers if and only if the 32-bit count of macroblocks is positive or below -32768 |
| Nv12.NumBuffersIs | test.c:322-322 | three more than the most, up to 16, that hold at most 32768 macroblocks; three for counts below -32768 |
| Nv12.Int32Wraps | test.c:322-322 | the count differs from the true one by a multiple of 2^32 |
| Nv12.LayoutIs | test.c:318-328 | dimensions rounded up to 16, 96 rows of padding, a padded width of the least multiple of 128 with 64 to spare, and the stride |
| Nv12.OrdinaryFramesInRange | test.c:322-322 | rounded frames whose macroblocks an int can count have a positive count and are in that range |
| Nv12.HugeFramesDivideByZero | test.c:322-322 | a frame of 2^20 by 2^20 divides by zero |
| Nv12.WriteRow | test.c:247-256 | a row goes out whole, in whatever pieces, unless a write fails; then a prefix of it does |
| Nv12.WriteOutput | test.c:236-272 | all luma rows and then half as many chroma rows; anything less shows in the count |
| Nv12.RowsPixel | test.c:247-269 | column c of row r in memory is byte r * width + c of the output |
| Nv12.PlanesApart | test.c:453-462 | samples inside the padded frame lie in their own plane |
| Nv12.PlanesAre | test.c:118-163 | samples by row, stride and column; luma first, chroma behind all padded luma rows, half as much again in all |
| Nv12.ChromaOffsetIff | test.c:456-456 | the chroma offset is that of the region's first pair of samples if and only if left and top are even |
| Nv12.OddTopMissed | test.c:456-456 | for row 1 it is half a row off |
| Nv12.OddLeftSwaps | test.c:456-462 | for an odd left column the first chroma byte on file is the V sample of the region's first pair, so that the file is not the crop when the two differ |
| Nv12.OddLeftMissed | test.c:456-462 | such a region: column 1 of a frame of 16 by 16 |
| Nv12.CropIff | test.c:236-272 | what is written is the crop, whatever the samples, if and only if left and top are even |
| Nv12.LumaIsCrop | test.c:247-256 | the luma written is the region's for every corner |
| Nv12.ChromaInside | test.c:258-269 | the chroma rows written lie inside the buffer for every corner |
| Nv12.OffsetsAreStarts | test.c:453-462 | where the pointers passed to write_output lie in their planes: at the corner, and for an odd top half a row behind its chroma row |
| Nv12.LayoutsCroppable | test.c:318-328 | the linear layout, and the 4096-byte one as long as a padded row fits, suit any region inside the padded frame |
| Nv12.RowsAreCrop | test.c:236-272 | with an even corner the rows written are the crop, sample by sample, luma then chroma |
| Nv12.CropInPlainTerms | test.c:236-272 | a crop sample by sample, by products of rows and widths |
| Nv12.ShowBuffer | test.c:452-463 | every access is inside the buffer and width * height * 3 / 2 bytes go out unless a write fails; then the luma is the active region's, and with an even corner all bytes are exactly the active region |
| Ivahd.FieldOnly | ducati/platform/base_image/src/main.c:182-184 | the divider field is set and no other bit changes |
| Ivahd.Accelerator.SetOpp | ducati/platform/base_image/src/main.c:171-186 | the register for the operating point, whose bits the next rows give; an unknown one changes nothing |
| Ivahd.SlowBits | ducati/platform/base_image/src/main.c:176-184 | operating point 0: field 0x10e, other bits as before |
| Ivahd.HalfBits | ducati/platform/base_image/src/main.c:177-184 | operating point 50: field 0x00e, other bits as before |
| Ivahd.FastBits | ducati/platform/base_image/src/main.c:178-184 | operating point 100: field 0x007, other bits as before |
| Ivahd.Accelerator.Acquire | ducati/platform/base_image/src/main.c:188-198 | counts up; the first user sets the field 0x11f to 0x007 and no other bit, others leave the register alone |
| Ivahd.Accelerator.Release | ducati/platform/base_image/src/main.c:200-210 | counts down; the last user sets the field 0x11f to 0x10e and no other bit, others leave the register alone |
| Ivahd.StepKeepsInv | ducati/platform/base_image/src/main.c:171-210 | every memory access of every worker keeps count and register in step |
| Ivahd.RunKeepsInv | ducati/platform/base_image/src/main.c:169-210 | so does every schedule of any number of workers |
| Ivahd.CountAndClockAgree | ducati/platform/base_image/src/main.c:169-210 | with interrupts on, the count is the number of workers between acquire and release, the field is 0x007 exactly when there is one and 0x10e otherwise, and all other bits keep their value |
| Ivahd.BusyMeansFast | ducati/platform/base_image/src/main.c:188-210 | while a codec works the field is 0x007, even while others are inside acquire or release |
| Ivahd.AcquireAsOne | ducati/platform/base_image/src/main.c:188-198 | the machine's steps through ivahd_acquire add up to the function |
| Ivahd.ReleaseAsOne | ducati/platform/base_image/src/main.c:200-210 | the same for ivahd_release |
| Ivahd.Attach | ducati/platform/base_image/src/main.c:240-255 | attaching is tried until it does not fail |
| Ivahd.PlatformInit | ducati/platform/base_image/src/main.c:225-262 | the field is set to 0x10e and both processors are attached before the server starts, which happens unless IPC fails |
| Ivahd.InitialDivider | ducati/platform/base_image/src/main.c:229-230 | platform_init leaves the register as the machine starts with it |
| Ivahd.MaskingNeeded | ducati/platform/base_image/src/main.c:188-198 | without the interrupt mask a codec could start at the slow clock |
| Ivahd.CountLost | ducati/platform/base_image/src/main.c:188-198 | without it two workers could be counted as one |

## Left out

- Interleaving of the server's worker threads over the table: each handler is one atomic step, as the TODO comments at dce.c:218 and dce.c:252 ask for.
- Runs.RunKeepsBooks: a process that was once refused, and has a slot later, does not release a handle from before, which the slot never counted; what that would cost is stated by Releases.EngineReleaseCleanIff and Releases.CodecReleaseCleanIff.
- RPC calls that fail: the VIDDEC3 stubs then return an unset `ret`; the stubs here are the path on which the call goes through.
- Null structure pointers passed to `dce_clean`: not part of this model; a stub's structures are given.
- The width of the counts `refs`, `count` and `ivahd_use_cnt`: integers do not wrap around.
- Pids and handles are 32-bit words; a pid is not zero, because zero marks an unused slot. Server.DceServer.CleanupCallback accepts pid zero only when unused slots are empty.
- The padding of message structures and the `size` argument of a handler, which the source does not look at.
- MemMgr_Alloc returning null: `dce_alloc` would write through it; the model's allocator succeeds.
- Address translation is a function that is affine within each block; cache contents are not part of this model, only the range that is written back.
- PersistentAlloc.AllocFxn: does not follow the program once a padded size has wrapped around and its block does not hold what is written; the same goes for what is built on it.
- `dce_alloc(0)` is modelled for translation that is affine up to the pointer handed out.
- Memory_alloc asked for no bytes (a padded size that wraps around to zero) is taken to answer null.
- Negative sizes, alignments and dimensions of memory records and resources.
- The heap's bookkeeping inside free memory; Memory_alloc may answer null at any time or any block that is free and aligned.
- The layout of the tiled-memory handle: its header is not in the repository, so its words stand in the order in which they are assigned; function pointer and enumeration constants are written as zero.
- Assertions on null arguments in getHandles and freeHandles.
- The tie between the 32-bit masks of ALIGN2 (Nv12.MaskingIsLeast) and the rounding on unbounded numbers (Nv12.LayoutFor) is the property both have, not an equation between words and numbers.
- The sum and product arithmetic of sizes in `main` is unbounded except in the buffer count.
- The tiled layout with padded rows longer than 4096 bytes: rows would overlap.
- A file that cannot be opened for output, and reading of input: only the sizes of input files matter here.
- `outBufsInUseFlag`, display regions beyond the first, `outBufs->numBufs` (constantly two), and the `y` and `uv` addresses of a buffer.
- calloc or tiler_alloc failing in output_allocate; each buffer has an address of its own, and that address is its ID.
- A call of the codec that fails keeps its buffer: the caller leaves it with the codec, so that it counts as held.
- HDVICP_Reset, boot code, clock and reset polling, idle wake-up, IPC set-up.
- RcmServer and RcmClient, MemMgr, TilerMem, Cache, RMAN and the codec engine itself: abstract operations with contracts.
- Tracing, argument parsing, timing.
