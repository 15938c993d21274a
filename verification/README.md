# What the game server's messages, allocator and index are proved to do

The server sends and receives protocol buffer packets and ships the library that carries them. This project models
four parts of that code in Dafny and proves what they promise:

* **The arena allocator.** A `SerialArena` hands out memory from a chain of growing blocks and keeps its list of
  cleanups inside the same blocks (`ArenaBlocks`, `SerialArenas`); `ArenaImpl` is the list of these, one per thread
  (`Arenas`), and `ArenaRuns` follows any run of demands and resets on it. `ArenaThreads` is the protocol by which
  threads find or publish their `SerialArena`: a state machine whose steps are the single atomic actions, with many
  arenas, lifecycle ids, resets, threads that come and go, and reuse of addresses; `ArenaProgress` says what every
  call achieves and that it ends.
* **The descriptor index.** One probe of an ordered map stands in for a search over all dotted ancestors of a name.
  `SymbolIndex` mechanises the argument in the header and finds the exact condition under which insertion keeps it
  true; `DescriptorIndexes` follows any run of Adds, `DescriptorDatabases` is the imperative form, and
  `DescriptorAnswers` says what is found and what is accepted in terms of the names in the files.
* **The packets.** `Wire` is the encoding as a specification (Protocol Buffers Encoding: "Base 128 Varints", "Signed
  Integers", "Length-Delimited Records", "Packed Repeated Fields", "Last One Wins"), `Scalars`, `GameObjects` and
  `Packets` say what the messages mean on it, and `WireReader`, `WireWriter`, `ObjectMessages`, `PacketMessages` and
  `ListPacketMessages` are the generated parse loops, writers, size calculators and merges, proved to do the same.
  `PacketCopies` follows packets from one object to another, alone and two in a buffer. Three modules say the same
  things without parsers and writers: `WireGrammar` which bytes are which records, `Meanings` and `MessageMeanings`
  what records mean field by field, `MessageBytes` what is written; `Utf8` is the encoding behind the string test.
* **`ArenaStringPtr`.** String fields that share one default until they are written to (`StringFields`). `StringRuns`
  follows any run of operations on any number of them, in debug and in release builds.

`Prelude`, `Symbols` and `OrderedMaps` hold what these share.

## How to read the model

* Code that updates objects is a class with those fields; each method is proved against a function of the old state,
  and the promises are lemmas about that function. Pure predicates are functions.
* Lists of blocks, chunks and SerialArenas are ghost sequences, oldest first, tied to the real `next` fields.
  `regions` records every range handed out; each method that allocates promises that the earlier ones stay.
* A block is an object, so `block_alloc` returning memory that nobody else uses is what allocation means. Header,
  SerialArena, chunk and node sizes are parameters; `size_t` is a natural number, and the overflow check in
  `NewBlock` is a precondition.
* `BlockSource` holds the options and the `space_allocated_` counter that all SerialArenas of an arena use.
* A string is a sequence of chars, one for each byte, in byte order. A file descriptor is the value that is stored.
* A message's bytes are one flat buffer; a parse ends in failure or in the value, so `_InternalParse` includes the
  check that it ended at its limit. What a failed parse leaves in the message is not specified.
* A float is its 32-bit pattern; both zero patterns count as zero when written and merged.
* "Readable" is what a reader accepts and a writer does not check: UTF-8 names (section 4 of RFC 3629), lengths up to
  INT_MAX - 16, and nesting within the limit. Parsing succeeds if and only if the message is readable.
* Sizes are compared by `SameSize`: equal, or both over INT_MAX, where the caller gives up before writing.

## Where the code differs from its description

* The comment in `AddSymbol` takes the iterator to be at the last key not after the name. When every key is after the
  name it is at the first key, which is then stepped over. So "foo" is accepted beside "foo.bar", against the map
  invariant in the header, and "foo.zed" is then no longer found (`FooAfterFooBar`). `AddSymbolIsExact` says when
  this happens, for every map and name, and `RunPrefixFree` that nothing else ever breaks the invariant.

## Model

| member | source | states |
|---|---|---|
| `ArenaThreads.NextKeeps` | GameServer/Libraries/Include/google/protobuf/arena.cc:334-358 | every atomic step of every thread (cache test, hint load and test, list walk, block allocation, head load, set next, weak CAS, the three cache writes, construction, reset, destruction, and the start and end of a thread, whose cache address the next thread may get) keeps the invariant |
| `ArenaThreads.RunKeeps` | GameServer/Libraries/Include/google/protobuf/arena.cc:334-358 | hence the invariant holds in every state of every run of any number of arenas and of threads that come and go |
| `ArenaThreads.ReturnsCallersOwn` | GameServer/Libraries/Include/google/protobuf/arena_impl.h:331-343 | whatever GetSerialArena returns, by cache, hint, walk or push, is live, in the arena's list and owned by the calling thread |
| `ArenaThreads.StaleCacheIsNeverUsed` | GameServer/Libraries/Include/google/protobuf/arena_impl.h:345-356 | when a thread's cached id equals an arena's id (and it is not between its two cache writes), the cached SerialArena is in that arena's list and the thread's own, over constructions, resets, reuse of addresses and threads that take the cache address of one that has ended |
| `ArenaThreads.OneSerialArenaPerThread` | GameServer/Libraries/Include/google/protobuf/arena.cc:334-358 | the list that `threads_` and `next_` form is acyclic and live, has one entry per thread at most, and contains the hint |
| `ArenaThreads.NoSerialArenaIsLost` | GameServer/Libraries/Include/google/protobuf/arena.cc:349-353 | every live SerialArena is in its arena's list or still held by its owner on the way to the CAS; a thread has at most one per arena |
| `ArenaThreads.ListsOnlyGrow` | GameServer/Libraries/Include/google/protobuf/arena.cc:349-353 | as long as an arena keeps its id, its list only gains entries at the head |
| `ArenaThreads.ReadsAreLive` | GameServer/Libraries/Include/google/protobuf/arena.cc:337-341 | no thread ever reads a freed SerialArena inside GetSerialArena: its next action is always enabled |
| `ArenaThreads.PushKeeps` | GameServer/Libraries/Include/google/protobuf/arena.cc:349-353 | a successful CAS makes the SerialArena, whose `next` is the present head, the new head of the list, and keeps the invariant |
| `ArenaThreads.SetNextKeeps` | GameServer/Libraries/Include/google/protobuf/arena.cc:350-352 | setting `next` to the head that was read, again after each failed CAS, disturbs nobody |
| `ArenaThreads.SearchStepKeeps` | GameServer/Libraries/Include/google/protobuf/arena.cc:336-341 | the walk misses no SerialArena of the walking thread, whatever is pushed meanwhile |
| `ArenaThreads.FastStepKeeps` | GameServer/Libraries/Include/google/protobuf/arena_impl.h:331-356 | the fast path keeps the invariant, also when it is tried twice |
| `ArenaThreads.CacheStepKeeps` | GameServer/Libraries/Include/google/protobuf/arena_impl.h:310-318 | the cache is written serial first, id second, hint last; each write keeps the invariant |
| `ArenaThreads.ExitKeeps` | GameServer/Libraries/Include/google/protobuf/arena_impl.h:276-299 | a thread that ends leaves its SerialArenas in the lists, and takes nothing with it that is in no list |
| `ArenaThreads.InitKeeps` | GameServer/Libraries/Include/google/protobuf/arena.cc:69-90 | Init takes an id that no arena and no cache has |
| `ArenaThreads.FreeKeeps` | GameServer/Libraries/Include/google/protobuf/arena.cc:232-248 | freeing a quiescent arena removes exactly its own SerialArenas and leaves no thread with one of them |
| `ArenaThreads.OtherThreadKeeps` | GameServer/Libraries/Include/google/protobuf/arena.cc:334-358 | what holds for a thread survives the steps of the others |
| `ArenaProgress.CasPublishes` | GameServer/Libraries/Include/google/protobuf/arena.cc:349-353 | from every state of a run: a thread that finds the head it has read, and does not fail spuriously, publishes its SerialArena in front of the list, changes nothing else, and is past the loop |
| `ArenaProgress.FailedCasReloads` | GameServer/Libraries/Include/google/protobuf/arena.cc:349-353 | a CAS that fails, spuriously or not, changes nothing and leaves the thread with the present head |
| `ArenaProgress.CallAnswers` | GameServer/Libraries/Include/google/protobuf/arena_impl.h:331-343 | from every state of a run with a thread inside GetSerialArena, its steps alone reach the answer within the length of the list plus 12, however fresh addresses are chosen; the answer is the SerialArena it had in the list, which is then unchanged, or else its new one, which is the new head |
| `ArenaProgress.AnswerIsReached` | GameServer/Libraries/Include/google/protobuf/arena_impl.h:331-343 | and such steps always exist: the thread is never stopped before it has its answer |
| `ArenaProgress.StepGetsCloser` | GameServer/Libraries/Include/google/protobuf/arena.cc:334-358 | each undisturbed step of a call decreases a measure, and only a push changes the list |
| `ArenaProgress.AnswerIsRemembered` | GameServer/Libraries/Include/google/protobuf/arena_impl.h:310-318 | after a call that ran alone, the thread's cache holds this arena's id and the answer, or the hint is the answer |
| `ArenaProgress.RememberedAnswerIsFast` | GameServer/Libraries/Include/google/protobuf/arena_impl.h:331-356 | the next call then gives the same answer after one step by the cache or three by the hint, changing nothing |
| `ArenaProgress.ConstructBegins` | GameServer/Libraries/Include/google/protobuf/arena.cc:69-90 | an arena can be constructed exactly where there is none and its initial SerialArena is not in use; its id is above all ids of arenas and caches, its list empty or that SerialArena |
| `ArenaProgress.ResetBegins` | GameServer/Libraries/Include/google/protobuf/arena.cc:99-107 | Reset is possible exactly when no thread is in the arena; every SerialArena of it goes, those of other arenas stay, and it begins anew with an id never used |
| `ArenaProgress.DestroyEnds` | GameServer/Libraries/Include/google/protobuf/arena.cc:92-97 | destruction is possible exactly then, too, and removes the arena and its SerialArenas and nothing else |
| `ArenaBlocks.AlignUpTo8` | GameServer/Libraries/Include/google/protobuf/arena_impl.h:53-56 | the least multiple of 8 that is not below n |
| `ArenaBlocks.AlignUpTo8Bits` | GameServer/Libraries/Include/google/protobuf/arena_impl.h:53-56 | on 64-bit words that do not wrap, the bit trick gives a multiple of 8 that is at most 7 above n |
| `ArenaBlocks.AlignUpTo8IsMask` | GameServer/Libraries/Include/google/protobuf/arena_impl.h:53-56 | masking n + 7 with -8, as a bitwise and of 64-bit words, equals AlignUpTo8(n) whenever n + 7 does not wrap |
| `ArenaBlocks.BumpKeeps` | GameServer/Libraries/Include/google/protobuf/arena_impl.h:181-193 | a bump keeps regions aligned, in order and inside their block, and pays the request a new block was opened for |
| `ArenaBlocks.NewBlockKeeps` | GameServer/Libraries/Include/google/protobuf/arena.cc:192-205 | opening a block for a request too large for the last one changes no region and no total |
| `ArenaBlocks.WasteBound` | GameServer/Libraries/Include/google/protobuf/arena.cc:109-125 | the room in all blocks left behind is at most twice the bytes handed out |
| `ArenaBlocks.HandedOutFits` | GameServer/Libraries/Include/google/protobuf/arena.cc:220-230 | bytes handed out, one header per block and one SerialArena fit in the blocks |
| `ArenaBlocks.TotalIsRequestedPlusChunks` | GameServer/Libraries/Include/google/protobuf/arena.cc:131-145 | bytes handed out are those requested plus those of the cleanup chunks |
| `ArenaBlocks.ChunkSize` | GameServer/Libraries/Include/google/protobuf/arena.cc:133-134 | chunks hold 8, 16, 32, 64, 64, ... cleanups |
| `ArenaBlocks.AbandonedRoomIs` | GameServer/Libraries/Include/google/protobuf/arena.cc:192-205 | the room left behind is the sizes of those blocks less their headers and the SerialArena |
| `ArenaBlocks.NewestGoesFirst` | GameServer/Libraries/Include/google/protobuf/arena.cc:250-277 | of two blocks that are freed, the later one is freed first |
| `ArenaBlocks.ReversedIs` | GameServer/Libraries/Include/google/protobuf/arena.cc:295-313 | the k-th element from the front is the k-th from the back |
| `SerialArenas.BlockSource.NewBlock` | GameServer/Libraries/Include/google/protobuf/arena.cc:109-125 | the new block has the start size, or twice the last size but at most the maximum, and more only when the request needs it; its link, and the counter that grows by its size |
| `SerialArenas.SerialArena.constructor` | GameServer/Libraries/Include/google/protobuf/arena.cc:315-331 | a SerialArena inside a fresh block starts valid, with nothing handed out |
| `SerialArenas.SerialArena.AllocateFor` | GameServer/Libraries/Include/google/protobuf/arena_impl.h:181-193 | returns the next aligned bytes; at most one block is added, exactly when the head has no room; the counter moves by the added size |
| `SerialArenas.SerialArena.AllocateAlignedFallback` | GameServer/Libraries/Include/google/protobuf/arena.cc:192-205 | the old head keeps its fill position, and the request lands in the new block |
| `SerialArenas.SerialArena.AllocateAligned` | GameServer/Libraries/Include/google/protobuf/arena_impl.h:181-193 | the same for a caller's request, with the cleanups untouched |
| `SerialArenas.SerialArena.MaybeAllocateAligned` | GameServer/Libraries/Include/google/protobuf/arena_impl.h:196-207 | succeeds exactly when the head block has room, and then like AllocateAligned |
| `SerialArenas.SerialArena.AddCleanup` | GameServer/Libraries/Include/google/protobuf/arena_impl.h:209-217 | appends one cleanup to the registered ones; every range handed out before stays, and all that is added is for cleanup chunks, each with room for its nodes and less than 8 bytes more |
| `SerialArenas.SerialArena.AddCleanupFallback` | GameServer/Libraries/Include/google/protobuf/arena.cc:131-145 | opens a chunk of the next size in the arena's own memory, after every range handed out before, with room for all its nodes |
| `SerialArenas.SerialArena.AllocateAlignedAndAddCleanup` | GameServer/Libraries/Include/google/protobuf/arena_impl.h:219-223 | the returned range is the first new region, earlier ones stay, and the cleanup registered is that of exactly this address |
| `SerialArenas.SerialArena.CleanupList` | GameServer/Libraries/Include/google/protobuf/arena.cc:289-293 | runs every registered cleanup once, in reverse order of registration: the k-th call is the k-th cleanup from the end |
| `SerialArenas.SerialArena.CleanupListFallback` | GameServer/Libraries/Include/google/protobuf/arena.cc:295-313 | the chunk walk with only the newest chunk partly full does so |
| `SerialArenas.SerialArena.SpaceUsed` | GameServer/Libraries/Include/google/protobuf/arena.cc:220-230 | the sum over fill positions equals the bytes handed out |
| `SerialArenas.SerialArena.Free` | GameServer/Libraries/Include/google/protobuf/arena.cc:250-277 | frees every block but the initial one, newest first, each with its size, and returns the sum of all sizes |
| `SerialArenas.SerialArena.RangesAreApart` | GameServer/Libraries/Include/google/protobuf/arena_impl.h:240-248 | any two regions, requests and cleanup chunks alike, are 8-aligned, inside live blocks, disjoint, and clear of headers and the SerialArena; every method of the class keeps the regions there were |
| `SerialArenas.SerialArena.NodesFit` | GameServer/Libraries/Include/google/protobuf/arena_impl.h:150-156 | in every valid state, for each cleanup chunk and each of its nodes, the node's bytes behind the chunk's own fields are inside the chunk's range, which is less than 8 bytes longer than chunk and nodes need |
| `SerialArenas.SerialArena.NodesAreApart` | GameServer/Libraries/Include/google/protobuf/arena.cc:131-145 | so no node overlaps a request, another chunk, a header, the SerialArena or another node |
| `SerialArenas.SerialArena.SpaceIsConserved` | GameServer/Libraries/Include/google/protobuf/arena.cc:220-230 | SpaceUsed is requests plus chunk bytes, and with headers and the SerialArena it fits in the blocks |
| `SerialArenas.SerialArena.WasteIsBounded` | GameServer/Libraries/Include/google/protobuf/arena.cc:192-205 | the waste bound for a SerialArena in any reachable state: the sizes of the blocks left behind are at most twice the bytes handed out, plus their headers and the SerialArena |
| `Arenas.ArenaImpl.constructor` | GameServer/Libraries/Include/google/protobuf/arena_impl.h:87-97 | a new arena is valid and has allocated nothing but its initial block |
| `Arenas.ArenaImpl.Init` | GameServer/Libraries/Include/google/protobuf/arena.cc:69-90 | after Init the counter is the size of the initial block, which the calling thread owns, or 0 |
| `Arenas.ArenaImpl.GetSerialArena` | GameServer/Libraries/Include/google/protobuf/arena.cc:334-358 | one thread at a time: the caller's SerialArena if there is one, else one new entry at the head |
| `Arenas.ArenaImpl.AllocateAligned` | GameServer/Libraries/Include/google/protobuf/arena_impl.h:110-117 | the range is a new region of the caller's SerialArena, whose earlier ranges, blocks and cleanups stay; what other threads have is unchanged |
| `Arenas.ArenaImpl.AddCleanup` | GameServer/Libraries/Include/google/protobuf/arena.cc:157-164 | the cleanup is appended to the caller's, whose earlier ranges and blocks stay; what other threads have is unchanged |
| `Arenas.ArenaImpl.AllocateAlignedAndAddCleanup` | GameServer/Libraries/Include/google/protobuf/arena.cc:147-155 | both at once: the range is a new region, and its cleanup is the caller's last |
| `Arenas.ArenaImpl.RangesAreApart` | GameServer/Libraries/Include/google/protobuf/arena_impl.h:240-248 | any two regions of any two threads are disjoint, aligned and in live memory |
| `Arenas.ArenaImpl.SpaceUsed` | GameServer/Libraries/Include/google/protobuf/arena.cc:211-218 | the sum of the bytes handed out to all threads |
| `Arenas.AllHandedOutIsSum` | GameServer/Libraries/Include/google/protobuf/arena.cc:211-218 | the bytes handed out to all threads are the sum of those handed out to each |
| `Arenas.ArenaImpl.CleanupList` | GameServer/Libraries/Include/google/protobuf/arena.cc:279-287 | runs the cleanups of all threads, each thread's in reverse order |
| `Arenas.ArenaImpl.FreeBlocks` | GameServer/Libraries/Include/google/protobuf/arena.cc:232-248 | frees the blocks of all threads and returns the counter's value |
| `Arenas.ArenaImpl.Reset` | GameServer/Libraries/Include/google/protobuf/arena.cc:99-107 | all cleanups run before any block is freed; the result is the space that was allocated; the arena starts over with its initial block alone, and what it then uses is what it used before or new |
| `Arenas.ArenaImpl.EachBlockFreedOnce` | GameServer/Libraries/Include/google/protobuf/arena.cc:250-277 | every block but the initial one is freed exactly once, with its own size |
| `Arenas.ArenaImpl.SpaceIsConserved` | GameServer/Libraries/Include/google/protobuf/arena.cc:207-218 | SpaceUsed, one header per block and one SerialArena per thread never exceed SpaceAllocated |
| `ArenaRuns.Run` | GameServer/Libraries/Include/google/protobuf/arena_impl.h:110-135 | over any run of allocations, cleanup registrations, both together and Resets, by any threads on an arena in any state: between two Resets every returned range is aligned, in a live block, and disjoint from every other returned range, from every range handed out before and from every cleanup chunk, and no block or range is taken back; at every moment each thread's cleanups are those it registered since the last Reset, or before the run, in order; and every Reset runs and frees what is there at the time, as ResetOne says |
| `ArenaRuns.RunAndReset` | GameServer/Libraries/Include/google/protobuf/arena.cc:99-107 | a Reset after any run calls every registered cleanup once, each thread's from the newest to the oldest, before it frees a block; then it frees every block but the initial one exactly once, with its own size, and returns the sum of the sizes of all blocks |
| `ArenaRuns.ResetOne` | GameServer/Libraries/Include/google/protobuf/arena.cc:99-107 | one Reset as a step of a run: the cleanups that were registered and the blocks that were there are those in its log, its result is the sum of the sizes of all blocks, and only the initial block is left, for the thread that resets, with nothing handed out or registered |
| `ArenaRuns.CleanupLogIs` | GameServer/Libraries/Include/google/protobuf/arena.cc:279-293 | the log of a Reset or of destruction has one call per cleanup: each thread's cleanups in one piece, behind those of the threads after it in age, the last registered first |
| `ArenaRuns.TraceGrows` | GameServer/Libraries/Include/google/protobuf/arena_impl.h:181-193 | up to the next Reset no SerialArena, block or range is lost |
| `ArenaRuns.TwoApart` | GameServer/Libraries/Include/google/protobuf/arena_impl.h:240-248 | a range just handed out is disjoint from every one handed out since the last Reset, at the time it is handed out |
| `ArenaRuns.Serve` | GameServer/Libraries/Include/google/protobuf/arena_impl.h:110-135 | a demand for memory or a cleanup is answered by the SerialArena of its thread at a place never used before |
| `ArenaRuns.HandedOutIsSeparate` | GameServer/Libraries/Include/google/protobuf/arena_impl.h:240-248 | a range handed out to any thread is apart from everything else ever handed out |
| `ArenaRuns.RangeStays` | GameServer/Libraries/Include/google/protobuf/arena_impl.h:181-193 | a range handed out in a run is still where it was until the next Reset |
| `ArenaRuns.RegionsAreNew` | GameServer/Libraries/Include/google/protobuf/arena_impl.h:181-193 | no region is handed out twice between two Resets |
| `ArenaRuns.TraceRegisters` | GameServer/Libraries/Include/google/protobuf/arena_impl.h:209-217 | a thread's cleanups after any part of a run are those it had and those it has registered, in order, counted from the last Reset |
| `Symbols.SubSymbolIsComponentPrefix` | GameServer/Libraries/Include/google/protobuf/descriptor_database.cc:310-316 | the prefix-and-dot test holds exactly when the dotted components of one name begin those of the other |
| `Symbols.BetweenIsDescendant` | GameServer/Libraries/Include/google/protobuf/descriptor_database.h:251-261 | steps 6 to 8 of the header's argument: a valid name between an ancestor and its descendant is a descendant |
| `Symbols.AncestorNotAfter` | GameServer/Libraries/Include/google/protobuf/descriptor_database.h:243-244 | step 3: a match is never after the search key |
| `Symbols.LessIsLexicographic` | GameServer/Libraries/Include/google/protobuf/descriptor_database.h:237-242 | the order of the map: the first difference decides, and a name comes after its beginnings |
| `OrderedMaps.UpperBoundSplits` | GameServer/Libraries/Include/google/protobuf/descriptor_database.cc:297-308 | upper_bound separates the keys not after the given one from those after it |
| `OrderedMaps.InsertAdds` | GameServer/Libraries/Include/google/protobuf/descriptor_database.cc:201-202 | inserting a new key keeps the order and adds exactly that entry |
| `SymbolIndex.MatchIsFound` | GameServer/Libraries/Include/google/protobuf/descriptor_database.h:235-262 | a matching key is the one the probe finds, for any search string |
| `SymbolIndex.FindSymbolIsScan` | GameServer/Libraries/Include/google/protobuf/descriptor_database.cc:253-261 | on every valid prefix-free map and every search string the single probe returns what a scan of all keys returns |
| `SymbolIndex.MatchIsUnique` | GameServer/Libraries/Include/google/protobuf/descriptor_database.h:223-226 | at most one key equals a name or is an ancestor of it |
| `SymbolIndex.KeyIsFound` | GameServer/Libraries/Include/google/protobuf/descriptor_database.cc:253-261 | a key itself is always found, prefix-free or not |
| `SymbolIndex.AddSymbolAccepts` | GameServer/Libraries/Include/google/protobuf/descriptor_database.cc:150-205 | on a valid prefix-free map AddSymbol accepts exactly the valid names without conflict, and the one case it steps over |
| `SymbolIndex.AddSymbolIsExact` | GameServer/Libraries/Include/google/protobuf/descriptor_database.cc:150-205 | it accepts exactly the valid names without conflict if and only if the smallest key is not a descendant of the name that the next key does not share |
| `SymbolIndex.AddSymbolAddsOne` | GameServer/Libraries/Include/google/protobuf/descriptor_database.cc:196-204 | an accepted name was not a key; the map gains one entry and loses none |
| `SymbolIndex.AddSymbolPrefixFree` | GameServer/Libraries/Include/google/protobuf/descriptor_database.cc:183-194 | the map stays prefix-free if and only if nothing was stepped over |
| `SymbolIndex.FooAfterFooBar` | GameServer/Libraries/Include/google/protobuf/descriptor_database.cc:297-308 | "foo" is accepted beside "foo.bar", after which "foo.zed" is not found though a scan finds it |
| `DescriptorIndexes.RunStepsConcat` | GameServer/Libraries/Include/google/protobuf/descriptor_database.cc:117-147 | adding stops at the first failing step and keeps what was added before |
| `DescriptorIndexes.StepsAreDeclared` | GameServer/Libraries/Include/google/protobuf/descriptor_database.cc:127-146 | a step is added for exactly the top-level messages, enums, extensions and services, and for the extensions at any depth |
| `DescriptorIndexes.AddFileKeeps` | GameServer/Libraries/Include/google/protobuf/descriptor_database.cc:117-147 | one Add, failing or not, keeps the index coherent and every binding in place; a successful one records all its steps |
| `DescriptorIndexes.LookupsAreCoherent` | GameServer/Libraries/Include/google/protobuf/descriptor_database.cc:247-269 | after any run of Adds, failed ones included, whatever a symbol or extension lookup returns is the file stored under its own name |
| `DescriptorIndexes.BindingsStay` | GameServer/Libraries/Include/google/protobuf/descriptor_database.cc:120-123 | no binding is ever lost or overwritten by later Adds |
| `DescriptorIndexes.AddedFilesResolve` | GameServer/Libraries/Include/google/protobuf/descriptor_database.cc:117-147 | each symbol and fully-qualified extension of a successfully added file resolves to it ever after, and so does every name below such a symbol while the symbols are prefix-free |
| `DescriptorIndexes.RunPrefixFree` | GameServer/Libraries/Include/google/protobuf/descriptor_database.cc:150-205 | the map invariant survives a run of Adds if and only if no step of the run stepped over a descendant |
| `DescriptorIndexes.ExtensionNumbersAreAll` | GameServer/Libraries/Include/google/protobuf/descriptor_database.cc:271-284 | the numbers found for a type are exactly the non-negative registered ones, strictly ascending |
| `DescriptorIndexes.MergedIsCoherent` | GameServer/Libraries/Include/google/protobuf/descriptor_database.cc:536-588 | over any list of databases, a file that a merged symbol or extension lookup returns is the one the merged lookup has under its name |
| `DescriptorAnswers.AddedNamesAreFound` | GameServer/Libraries/Include/google/protobuf/descriptor_database.cc:125-146 | after any run, every top-level message, enum, extension and service of an accepted file is found under package, dot and name, or under its name alone when there is no package; so is every dotted name below it while the map is prefix-free |
| `DescriptorAnswers.AddedExtensionsAreFound` | GameServer/Libraries/Include/google/protobuf/descriptor_database.cc:208-244 | after any run, every extension, at the top or in messages at any depth, of an accepted file whose extendee is a dot and a type is found under that type and number |
| `DescriptorAnswers.AddedFileIsFound` | GameServer/Libraries/Include/google/protobuf/descriptor_database.cc:120-123 | after any run an accepted file is found under its name |
| `DescriptorAnswers.SymbolEntriesAreNames` | GameServer/Libraries/Include/google/protobuf/descriptor_database.cc:117-147 | after any run, an entry for a name leads to an added file that has this name with its package |
| `DescriptorAnswers.ExtensionEntriesAreExtensions` | GameServer/Libraries/Include/google/protobuf/descriptor_database.cc:222-244 | after any run, an entry for a type and number leads to an added file that extends this type by this number |
| `DescriptorAnswers.StepsInOrder` | GameServer/Libraries/Include/google/protobuf/descriptor_database.cc:127-146 | the names Add enters are those of messages, enums, extensions and services, in this order, with the package in front; the extensions are those in messages, nested ones first, and then those of the file |
| `DescriptorAnswers.AddAccepts` | GameServer/Libraries/Include/google/protobuf/descriptor_database.cc:117-147 | while the map is prefix-free, Add accepts a file with a new name, valid names, and no name or extension in the way of another or of what is there; it accepts no other, unless it steps over a descendant |
| `DescriptorAnswers.FileIsEntry` | GameServer/Libraries/Include/google/protobuf/descriptor_database.cc:247-250 | a file is found under a name exactly when there is this entry |
| `DescriptorAnswers.SymbolIsEntry` | GameServer/Libraries/Include/google/protobuf/descriptor_database.cc:253-259 | a name is found only through an entry for it or for a dotted ancestor, and through every such entry while the map is prefix-free |
| `DescriptorAnswers.ExtensionIsEntry` | GameServer/Libraries/Include/google/protobuf/descriptor_database.cc:263-269 | a file is found for a type and number exactly when there is this entry |
| `DescriptorAnswers.MergedFileIsEntry` | GameServer/Libraries/Include/google/protobuf/descriptor_database.cc:536-544 | the merged lookup gives f exactly when the first source with a file of the name has f |
| `DescriptorAnswers.MergedSymbolIsEntry` | GameServer/Libraries/Include/google/protobuf/descriptor_database.cc:546-565 | the merged lookup gives f exactly when the first source with an entry that covers the name has f there, and no earlier source has a file of f's name |
| `DescriptorAnswers.MergedExtensionIsEntry` | GameServer/Libraries/Include/google/protobuf/descriptor_database.cc:567-588 | the merged lookup gives f exactly when the first source with an entry for the type and number has f there, and no earlier source has a file of f's name |
| `DescriptorDatabases.DescriptorIndex.AddFile` | GameServer/Libraries/Include/google/protobuf/descriptor_database.cc:117-147 | the loops over messages, enums, extensions and services do what the steps say, and stop where they stop |
| `DescriptorDatabases.DescriptorIndex.AddSymbol` | GameServer/Libraries/Include/google/protobuf/descriptor_database.cc:150-205 | the iterator form of AddSymbol changes only `by_symbol_`, as the specification says |
| `DescriptorDatabases.DescriptorIndex.AddNestedExtensions` | GameServer/Libraries/Include/google/protobuf/descriptor_database.cc:208-219 | nested messages first, then own extensions, until one fails |
| `DescriptorDatabases.DescriptorIndex.AddExtension` | GameServer/Libraries/Include/google/protobuf/descriptor_database.cc:222-244 | only a fully-qualified extendee is entered, and never over an existing entry |
| `DescriptorDatabases.DescriptorIndex.ValidateSymbolName` | GameServer/Libraries/Include/google/protobuf/descriptor_database.cc:319-329 | true exactly for names of letters, digits, '_' and '.', with the characters written out |
| `DescriptorDatabases.DescriptorIndex.FindAllExtensionNumbers` | GameServer/Libraries/Include/google/protobuf/descriptor_database.cc:271-284 | appends those numbers to the output and says whether there is one |
| `DescriptorDatabases.DescriptorIndex.FindAllFileNames` | GameServer/Libraries/Include/google/protobuf/descriptor_database.cc:287-295 | the file names in order |
| `DescriptorDatabases.SimpleDescriptorDatabase.Add` | GameServer/Libraries/Include/google/protobuf/descriptor_database.cc:333-342 | adds the file to the index and owns it even when the index refuses it |
| `DescriptorDatabases.SimpleDescriptorDatabase.FindFileByName` | GameServer/Libraries/Include/google/protobuf/descriptor_database.cc:344-347 | f is returned exactly when (name, f) is an entry |
| `DescriptorDatabases.SimpleDescriptorDatabase.FindFileContainingSymbol` | GameServer/Libraries/Include/google/protobuf/descriptor_database.cc:349-352 | f is returned exactly when an entry for the name or a dotted ancestor of it has f, while the map is prefix-free |
| `DescriptorDatabases.SimpleDescriptorDatabase.FindFileContainingExtension` | GameServer/Libraries/Include/google/protobuf/descriptor_database.cc:354-358 | f is returned exactly when ((type, number), f) is an entry |
| `DescriptorDatabases.AddAll` | GameServer/Libraries/Include/google/protobuf/descriptor_database.cc:333-358 | a new database after any Adds: which were accepted, and that every accepted file, and each of its names and extensions, is found |
| `DescriptorDatabases.RegisteredIsEntry` | GameServer/Libraries/Include/google/protobuf/descriptor_database.cc:590-610 | a number counts for the merged list when it is not negative and some source has an entry for it |
| `DescriptorDatabases.MergedDescriptorDatabase.FindFileByName` | GameServer/Libraries/Include/google/protobuf/descriptor_database.cc:536-544 | the first source that has an entry for the name |
| `DescriptorDatabases.MergedDescriptorDatabase.FindFileContainingSymbol` | GameServer/Libraries/Include/google/protobuf/descriptor_database.cc:546-565 | the file in the first source with an entry that covers the name, unless an earlier source has a file of that file's name |
| `DescriptorDatabases.MergedDescriptorDatabase.FindFileContainingExtension` | GameServer/Libraries/Include/google/protobuf/descriptor_database.cc:567-588 | the file in the first source with an entry for this type and number, unless an earlier source has a file of that file's name |
| `DescriptorDatabases.MergedDescriptorDatabase.FindAllExtensionNumbers` | GameServer/Libraries/Include/google/protobuf/descriptor_database.cc:590-610 | appends the sorted, duplicate-free union, and succeeds exactly when some source has a number |
| `DescriptorDatabases.InsertAll` | GameServer/Libraries/Include/google/protobuf/descriptor_database.cc:598-606 | inserting a range into an ordered set of numbers |
| `Wire.VarintRoundTrip` | GameServer/Libraries/Include/google/protobuf/parse_context.cc:361-371 | a varint of any width is read back, with whatever follows it left over |
| `Wire.SizeRoundTrip` | GameServer/Libraries/Include/google/protobuf/parse_context.cc:384-402 | a length is read back exactly when it is at most INT_MAX - 16 |
| `Wire.RecordRoundTrip` | GameServer/Libraries/Include/google/protobuf/parse_context.h:655-700 | a record of any wire type, groups included, is read back exactly when its lengths and nesting fit |
| `Wire.GroupRoundTrip` | GameServer/Libraries/Include/google/protobuf/parse_context.h:702-718 | the fields of a group are read back up to its end tag |
| `Wire.ParseConcat` | GameServer/Libraries/Include/google/protobuf/parse_context.h:702-718 | parsing a concatenation is parsing the second part into the result of the first |
| `Wire.ParseEncoded` | GameServer/Libraries/Include/google/protobuf/parse_context.h:702-718 | parsing what was encoded takes in the same records one by one |
| `Wire.ParseEncodedConcat` | GameServer/Libraries/Include/google/protobuf/parse_context.h:702-718 | a concatenation of two encodings is accepted exactly when both parts are, one after the other |
| `Scalars.SignExtendRoundTrip` | GameServer/Libraries/Include/google/protobuf/wire_format_lite.h:1746-1748 | a negative int32 or enum goes out as a 10-byte varint and comes back by truncation |
| `Scalars.PackedRoundTrip` | GameServer/Libraries/Include/google/protobuf/parse_context.h:614-628 | a packed list is read back in order after what the list holds already |
| `Meanings.ParseIsByRecords` | GameServer/Libraries/Include/google/protobuf/parse_context.h:702-718 | any bytes at all: a parser takes in the records they consist of, one after the other, and refuses bytes that are no records |
| `Meanings.NumbersOfParts` | GameServer/Libraries/Include/google/protobuf/parse_context.h:614-628 | numbers of a field, packed or not, with other records anywhere, are read in wire order |
| `WireGrammar.ReadingIsTheGrammar` | GameServer/Libraries/Include/google/protobuf/parse_context.cc:361-402 | bytes are read as these records if and only if the grammar of the wire format, said without a reader, says that they are: numbers of up to 5 or 10 bytes modulo 2^32 or 2^64, lengths up to INT_MAX - 16, groups with their own end tag |
| `WireGrammar.PackedIsTheGrammar` | GameServer/Libraries/Include/google/protobuf/parse_context.h:614-628 | a packed list is read as these numbers if and only if it is their base-128 forms one after the other |
| `WireGrammar.WrittenIsShortest` | GameServer/Libraries/Include/google/protobuf/io/coded_stream.h:899-921 | no form of a number that a reader accepts is shorter than the one that is written |
| `WireGrammar.PackedIsWritten` | GameServer/Libraries/Include/google/protobuf/io/coded_stream.h:876-888 | a packed list is written as its numbers in order |
| `Utf8.ValidUtf8IsEncoding` | GameServer/Libraries/Include/google/protobuf/stubs/structurally_valid.cc:556-573 | a string is accepted as UTF-8 if and only if it is the encoding of a sequence of Unicode scalar values, as section 3 of RFC 3629 gives it |
| `WireReader.ReadTagAt` | GameServer/Libraries/Include/google/protobuf/parse_context.h:498-513 | the tag reader with its byte-minus-one trick reads the first 5-byte base-128 number modulo 2^32 |
| `WireReader.ReadVarintAt` | GameServer/Libraries/Include/google/protobuf/parse_context.h:475-489 | the varint reader reads a number of up to 10 bytes modulo 2^64 |
| `WireReader.ReadSizeAt` | GameServer/Libraries/Include/google/protobuf/parse_context.h:565-575 | the length reader agrees with its specification, refusals included |
| `WireReader.ReadBytesAt` | GameServer/Libraries/Include/google/protobuf/parse_context.cc:423-428 | a length-delimited string |
| `WireReader.ReadUnknownAt` | GameServer/Libraries/Include/google/protobuf/unknown_field_set.cc:349-353 | any field the message does not know becomes one record |
| `WireReader.ReadGroupAt` | GameServer/Libraries/Include/google/protobuf/unknown_field_set.cc:325-330 | a group of unknown fields, with its nesting limit |
| `WireReader.ReadPackedAt` | GameServer/Libraries/Include/google/protobuf/parse_context.h:614-628 | a packed list appended to the field |
| `WireWriter.WriteVarint` | GameServer/Libraries/Include/google/protobuf/io/coded_stream.h:899-921 | the unrolled writer writes the varint of the number |
| `WireWriter.WritePackedField` | GameServer/Libraries/Include/google/protobuf/io/coded_stream.h:876-888 | tag, cached length and numbers make one packed record when the cached length is right |
| `WireWriter.WriteUnknown` | GameServer/Libraries/Include/google/protobuf/wire_format.cc:192-228 | unknown fields are written back as the records they are |
| `WireWriter.VarintSizeIsLength` | GameServer/Libraries/Include/google/protobuf/io/coded_stream.h:1656-1674 | (log2 * 9 + 73) / 64 is the length of the varint |
| `WireWriter.Int32SizeIsLength` | GameServer/Libraries/Include/google/protobuf/io/coded_stream.h:1676-1682 | 10 for negative numbers is the length of the sign-extended varint |
| `WireWriter.PackedSize` | GameServer/Libraries/Include/google/protobuf/wire_format_lite.cc:760-767 | the sum of the varint lengths is the length of the packed bytes |
| `WireWriter.UnknownSize` | GameServer/Libraries/Include/google/protobuf/wire_format.cc:266-306 | the computed size of unknown fields is their length, up to 2 GB |
| `WireWriter.LengthDelimitedSizeIsSame` | GameServer/Libraries/Include/google/protobuf/wire_format_lite.h:1799-1806 | truncating the length to 32 bits changes no size up to 2 GB |
| `GameObjects.ObjectParseIsMerge` | GameServer/GameServer/Struct.pb.cc:445-552 | parsing a serialized ObjectInfo into another is merging it, and fails exactly when a name is not UTF-8, a length is too large or nesting too deep |
| `GameObjects.ObjectRoundTrip` | GameServer/GameServer/Struct.pb.cc:554-639 | parse undoes serialize, for exactly the readable ObjectInfos |
| `GameObjects.ObjectConcatIsMerge` | GameServer/GameServer/Struct.pb.cc:747-788 | parsing two serialized ObjectInfos after another is merging the second into the first, and fails exactly when one is not readable |
| `GameObjects.ObjectStaysWellFormed` | GameServer/GameServer/Struct.pb.cc:445-552 | whatever bytes are parsed, no known record ends up among the unknown ones |
| `GameObjects.BuffParseIsMerge` | GameServer/GameServer/Struct.pb.cc:187-236 | the same for BuffData, with -0.0 not written |
| `GameObjects.BuffRoundTrip` | GameServer/GameServer/Struct.pb.cc:238-271 | parse undoes serialize for exactly the readable BuffDatas, except that a remainTime of -0.0 comes back as +0.0 |
| `GameObjects.BuffConcatIsMerge` | GameServer/GameServer/Struct.pb.cc:332-346 | parsing two serialized BuffDatas after another is merging them, and fails exactly when one is not readable |
| `GameObjects.BuffStaysWellFormed` | GameServer/GameServer/Struct.pb.cc:187-236 | the same for BuffData |
| `Packets.TestParseIsMerge` | GameServer/GameServer/Protocol.pb.cc:358-416 | parsing a serialized S_TEST into another is merging it, through its list of sub-messages |
| `Packets.TestRoundTrip` | GameServer/GameServer/Protocol.pb.cc:358-456 | parse undoes serialize for exactly the readable S_TESTs, up to -0.0 in its list |
| `Packets.TestConcatIsMerge` | GameServer/GameServer/Protocol.pb.cc:518-535 | parsing two serialized S_TESTs after another is merging them, and fails exactly when one is not readable |
| `Packets.AddParseIsMerge` | GameServer/GameServer/Protocol.pb.cc:1048-1107 | the same for S_AddObject |
| `Packets.AddRoundTrip` | GameServer/GameServer/Protocol.pb.cc:1048-1107 | parse undoes serialize for exactly the readable S_AddObjects |
| `Packets.AddConcatIsMerge` | GameServer/GameServer/Protocol.pb.cc:1148-1156 | parsing two after another is merging them, and fails exactly when one is not readable |
| `Packets.RemoveParseIsMerge` | GameServer/GameServer/Protocol.pb.cc:1238-1296 | the same for S_RemoveObject |
| `Packets.RemoveRoundTrip` | GameServer/GameServer/Protocol.pb.cc:1238-1296 | parse undoes serialize for exactly the readable S_RemoveObjects |
| `Packets.RemoveConcatIsMerge` | GameServer/GameServer/Protocol.pb.cc:1345-1353 | parsing two after another is merging them, and fails exactly when one is not readable |
| `Packets.MixedPackingReadsTheList` | GameServer/GameServer/Protocol.pb.cc:1238-1273 | any mixture of packed and unpacked records of the list parses to the list in wire order |
| `Packets.AttackParseIsMerge` | GameServer/GameServer/Protocol.pb.cc:1903-1972 | the same for S_Attack, where a sub-message present twice is merged field by field |
| `Packets.AttackRoundTrip` | GameServer/GameServer/Protocol.pb.cc:1903-1972 | parse undoes serialize for exactly the readable S_Attacks; a present but empty sub-message stays present |
| `Packets.AttackConcatIsMerge` | GameServer/GameServer/Protocol.pb.cc:2020-2033 | parsing two serialized S_Attacks after another is merging them, and fails exactly when one is not readable |
| `MessageMeanings.ObjectParseMeans` | GameServer/GameServer/Struct.pb.cc:445-552 | for any bytes: an ObjectInfo is parsed exactly when they are records in which every name is UTF-8; each field is then as its last record says, low 32 bits for int32 and enums, and the rest is kept as unknown |
| `MessageMeanings.BuffParseMeans` | GameServer/GameServer/Struct.pb.cc:187-236 | for any bytes: the last buffId and remainTime win, all victims in the records are appended in order, the rest is kept; refused when a packed list cannot be read |
| `MessageMeanings.MixedVictimsAreRead` | GameServer/GameServer/Struct.pb.cc:205-215 | however the victims are cut into packed and unpacked records, before, between and after other fields, they are read in wire order behind those there were, and the other fields are as their own records say |
| `MessageMeanings.VictimsAlone` | GameServer/GameServer/Struct.pb.cc:205-215 | records of victims alone change nothing but the list |
| `MessageMeanings.TestParseMeans` | GameServer/GameServer/Protocol.pb.cc:358-416 | for any bytes: the last id, hp and attack win, and each record of the list adds one BuffData with what its bytes mean |
| `MessageMeanings.MixedVictimsInTest` | GameServer/GameServer/Protocol.pb.cc:387-397 | the elements of an S_TEST have their victims in wire order, however those are cut |
| `MessageMeanings.AddParseMeans` | GameServer/GameServer/Protocol.pb.cc:1048-1085 | for any bytes: each record of the list adds one ObjectInfo with what its bytes mean |
| `MessageMeanings.RemoveParseMeans` | GameServer/GameServer/Protocol.pb.cc:1238-1273 | for any bytes: all ids in the records are appended in order |
| `MessageMeanings.MixedIdsAreRead` | GameServer/GameServer/Protocol.pb.cc:1238-1273 | however the ids are cut, with other records anywhere, they are read in wire order |
| `MessageMeanings.AttackParseMeans` | GameServer/GameServer/Protocol.pb.cc:1903-1942 | for any bytes: a sub-message is what all the records inside all its occurrences, taken together, make of what there was; absent when it does not occur |
| `MessageBytes.ObjectBytes` | GameServer/GameServer/Struct.pb.cc:554-639 | the bytes of an ObjectInfo, with every tag written out, in the order of the fields and without those that are zero or empty |
| `MessageBytes.BuffBytes` | GameServer/GameServer/Struct.pb.cc:238-271 | the bytes of a BuffData: victims packed, the float lowest byte first unless it is a zero |
| `MessageBytes.TestBytes` | GameServer/GameServer/Protocol.pb.cc:418-456 | the bytes of an S_TEST: its list element by element, each with its length |
| `MessageBytes.AddBytes` | GameServer/GameServer/Protocol.pb.cc:1087-1107 | the bytes of an S_AddObject |
| `MessageBytes.RemoveBytes` | GameServer/GameServer/Protocol.pb.cc:1275-1296 | the bytes of an S_RemoveObject, its ids packed |
| `MessageBytes.AttackBytes` | GameServer/GameServer/Protocol.pb.cc:1944-1972 | the bytes of an S_Attack: a sub-message that is present is written even when it is empty |
| `Packets.TestStaysWellFormed` | GameServer/GameServer/Protocol.pb.cc:358-416 | whatever bytes are parsed, no record the packet knows ends up among the unknown ones, nor inside its sub-messages |
| `Packets.AddStaysWellFormed` | GameServer/GameServer/Protocol.pb.cc:1048-1085 | whatever bytes are parsed, no record the packet knows ends up among the unknown ones, nor inside its sub-messages |
| `Packets.RemoveStaysWellFormed` | GameServer/GameServer/Protocol.pb.cc:1238-1273 | whatever bytes are parsed, no record the packet knows ends up among the unknown ones, nor inside its sub-messages |
| `Packets.AttackStaysWellFormed` | GameServer/GameServer/Protocol.pb.cc:1903-1942 | whatever bytes are parsed, no record the packet knows ends up among the unknown ones, nor inside its sub-messages |
| `ObjectMessages.BuffDataMessage.InternalParse` | GameServer/GameServer/Struct.pb.cc:187-236 | the parse loop accepts exactly what the specification accepts, and leaves its value |
| `ObjectMessages.BuffDataMessage.InternalSerialize` | GameServer/GameServer/Struct.pb.cc:238-271 | appends exactly the specified bytes, given the sizes that ByteSizeLong has cached |
| `ObjectMessages.BuffDataMessage.ByteSizeLong` | GameServer/GameServer/Struct.pb.cc:273-315 | returns the exact length of those bytes when it is at most INT_MAX, a number over INT_MAX otherwise, and then leaves every cached size right, at every level |
| `ObjectMessages.BuffDataMessage.MergeFrom` | GameServer/GameServer/Struct.pb.cc:332-346 | the new state is the merge of the old one and the argument |
| `ObjectMessages.ObjectInfoMessage.InternalParse` | GameServer/GameServer/Struct.pb.cc:445-552 | the parse loop accepts exactly what the specification accepts, and leaves its value |
| `ObjectMessages.ObjectInfoMessage.InternalSerialize` | GameServer/GameServer/Struct.pb.cc:554-639 | appends exactly the specified bytes, given the sizes that ByteSizeLong has cached |
| `ObjectMessages.ObjectInfoMessage.ByteSizeLong` | GameServer/GameServer/Struct.pb.cc:641-730 | returns the exact length of those bytes when it is at most INT_MAX, a number over INT_MAX otherwise, and then leaves every cached size right, at every level |
| `ObjectMessages.ObjectInfoMessage.MergeFrom` | GameServer/GameServer/Struct.pb.cc:747-788 | the new state is the merge of the old one and the argument |
| `ObjectMessages.ObjectInfoMessage.ParseMessage` | GameServer/Libraries/Include/google/protobuf/parse_context.h:601-612 | a sub-message is parsed in place within its length, one nesting level down |
| `PacketMessages.STestMessage.InternalParse` | GameServer/GameServer/Protocol.pb.cc:358-416 | the parse loop accepts exactly what the specification accepts, and leaves its value |
| `PacketMessages.STestMessage.InternalSerialize` | GameServer/GameServer/Protocol.pb.cc:418-456 | appends exactly the specified bytes, given the sizes that ByteSizeLong has cached |
| `PacketMessages.STestMessage.ByteSizeLong` | GameServer/GameServer/Protocol.pb.cc:458-501 | returns the exact length of those bytes when it is at most INT_MAX, a number over INT_MAX otherwise, and then leaves every cached size right, at every level |
| `PacketMessages.STestMessage.MergeFrom` | GameServer/GameServer/Protocol.pb.cc:518-535 | the new state is the merge of the old one and the argument |
| `PacketMessages.STestMessage.ParseBuffs` | GameServer/GameServer/Protocol.pb.cc:387-397 | the inner do-while over sub-messages with the same tag gives what returning to the tag switch each time gives, and ends because the bytes run out |
| `PacketMessages.SAttackMessage.InternalParse` | GameServer/GameServer/Protocol.pb.cc:1903-1942 | the parse loop accepts exactly what the specification accepts, and leaves its value |
| `PacketMessages.SAttackMessage.InternalSerialize` | GameServer/GameServer/Protocol.pb.cc:1944-1972 | appends exactly the specified bytes, given the sizes that ByteSizeLong has cached |
| `PacketMessages.SAttackMessage.ByteSizeLong` | GameServer/GameServer/Protocol.pb.cc:1974-2003 | returns the exact length of those bytes when it is at most INT_MAX, a number over INT_MAX otherwise, and then leaves every cached size right, at every level |
| `PacketMessages.SAttackMessage.MergeFrom` | GameServer/GameServer/Protocol.pb.cc:2020-2033 | the new state is the merge of the old one and the argument |
| `PacketMessages.STestMessage.Clear` | GameServer/GameServer/Protocol.pb.cc:345-356 | every element of the list is cleared, then the packet is empty |
| `PacketMessages.STestMessage.ParseFromString` | GameServer/Libraries/Include/google/protobuf/message_lite.cc:285-287 | a whole buffer is accepted exactly when the specification accepts it from the empty message |
| `PacketMessages.STestMessage.AppendToString` | GameServer/Libraries/Include/google/protobuf/message_lite.cc:417-436 | refused exactly when the message is over 2 GB, otherwise its bytes are appended |
| `PacketMessages.SAttackMessage.ParseFromString` | GameServer/Libraries/Include/google/protobuf/message_lite.cc:285-287 | a whole buffer is accepted exactly when the specification accepts it from the empty packet, into sub-messages of its own |
| `PacketMessages.SAttackMessage.AppendToString` | GameServer/Libraries/Include/google/protobuf/message_lite.cc:417-436 | refused exactly when the message is over 2 GB, otherwise its bytes are appended |
| `PacketCopies.NestingLimit` | GameServer/Libraries/Include/google/protobuf/io/coded_stream.cc:89 | a string is parsed with a hundred levels of nesting and no more |
| `PacketCopies.SendTest` | GameServer/Libraries/Include/google/protobuf/message_lite.cc:417-436 | what one object appends to a string and another parses arrives exactly when it is at most INT_MAX bytes long and readable at the default nesting limit, and then the other object has the same value up to -0.0 in its list |
| `PacketCopies.SendTestPair` | GameServer/Libraries/Include/google/protobuf/message_lite.cc:417-436 | two packets appended to one string and parsed at once arrive exactly when each would, as the second merged into the first |
| `PacketCopies.SendAdd` | GameServer/Libraries/Include/google/protobuf/message_lite.cc:417-436 | what one object appends to a string and another parses arrives exactly when it is at most INT_MAX bytes long and readable at the default nesting limit, and then the other object has the same value |
| `PacketCopies.SendAddPair` | GameServer/Libraries/Include/google/protobuf/message_lite.cc:417-436 | two packets appended to one string and parsed at once arrive exactly when each would, as the second merged into the first |
| `PacketCopies.SendRemove` | GameServer/Libraries/Include/google/protobuf/message_lite.cc:417-436 | what one object appends to a string and another parses arrives exactly when it is at most INT_MAX bytes long and readable at the default nesting limit, and then the other object has the same value |
| `PacketCopies.SendRemovePair` | GameServer/Libraries/Include/google/protobuf/message_lite.cc:417-436 | two packets appended to one string and parsed at once arrive exactly when each would, as the second merged into the first |
| `PacketCopies.SendAttack` | GameServer/Libraries/Include/google/protobuf/message_lite.cc:417-436 | what one object appends to a string and another parses arrives exactly when it is at most INT_MAX bytes long and readable at the default nesting limit, and then the other object has the same value |
| `PacketCopies.SendAttackPair` | GameServer/Libraries/Include/google/protobuf/message_lite.cc:417-436 | two packets appended to one string and parsed at once arrive exactly when each would, as the second merged into the first |
| `ListPacketMessages.SAddObjectMessage.InternalParse` | GameServer/GameServer/Protocol.pb.cc:1048-1085 | the parse loop accepts exactly what the specification accepts, and leaves its value |
| `ListPacketMessages.SAddObjectMessage.InternalSerialize` | GameServer/GameServer/Protocol.pb.cc:1087-1107 | appends exactly the specified bytes, given the sizes that ByteSizeLong has cached |
| `ListPacketMessages.SAddObjectMessage.ByteSizeLong` | GameServer/GameServer/Protocol.pb.cc:1109-1131 | returns the exact length of those bytes when it is at most INT_MAX, a number over INT_MAX otherwise, and then leaves every cached size right, at every level |
| `ListPacketMessages.SAddObjectMessage.MergeFrom` | GameServer/GameServer/Protocol.pb.cc:1148-1156 | the new state is the merge of the old one and the argument |
| `ListPacketMessages.SAddObjectMessage.ParseObjects` | GameServer/GameServer/Protocol.pb.cc:1056-1066 | the inner do-while over list elements, as in S_TEST |
| `ListPacketMessages.SRemoveObjectMessage.InternalParse` | GameServer/GameServer/Protocol.pb.cc:1238-1273 | the parse loop accepts exactly what the specification accepts, and leaves its value |
| `ListPacketMessages.SRemoveObjectMessage.InternalSerialize` | GameServer/GameServer/Protocol.pb.cc:1275-1296 | appends exactly the specified bytes, given the sizes that ByteSizeLong has cached |
| `ListPacketMessages.SRemoveObjectMessage.ByteSizeLong` | GameServer/GameServer/Protocol.pb.cc:1298-1328 | returns the exact length of those bytes when it is at most INT_MAX, a number over INT_MAX otherwise, and then leaves every cached size right, at every level |
| `ListPacketMessages.SRemoveObjectMessage.MergeFrom` | GameServer/GameServer/Protocol.pb.cc:1345-1353 | the new state is the merge of the old one and the argument |
| `StringFields.ArenaStringPtr.SetNoArena` | GameServer/Libraries/Include/google/protobuf/arenastring.h:267-274 | a new string in place of the default, or the field's own string rewritten; the default is never written |
| `StringFields.ArenaStringPtr.MutableNoArena` | GameServer/Libraries/Include/google/protobuf/arenastring.h:289-294 | a string that is not the default, with the value the field showed |
| `StringFields.ArenaStringPtr.ReleaseNoArena` | GameServer/Libraries/Include/google/protobuf/arenastring.h:296-310 | gives the field's own string away, or nothing, and shows the default |
| `StringFields.ArenaStringPtr.SetAllocatedNoArena` | GameServer/Libraries/Include/google/protobuf/arenastring.h:312-322 | the old string is deleted if it is not the default |
| `StringFields.ArenaStringPtr.DestroyNoArena` | GameServer/Libraries/Include/google/protobuf/arenastring.h:324-328 | likewise at the end of the field |
| `StringFields.ArenaStringPtr.ClearToDefaultNoArena` | GameServer/Libraries/Include/google/protobuf/arenastring.h:338-345 | shows what the default shows without giving up its string |
| `StringFields.ArenaStringPtr.AssignWithDefault` | GameServer/Libraries/Include/google/protobuf/arenastring.h:388-396 | shows what the other field shows, in a string of its own or in the default both had |
| `StringFields.ArenaStringPtr.SwapContents` | GameServer/Libraries/Include/google/protobuf/arenastring.h:185-201 | debug Swap: contents change places in strings that are not the default |
| `StringFields.ArenaStringPtr.SwapPointers` | GameServer/Libraries/Include/google/protobuf/arenastring.h:203-203 | release Swap: pointers change places |
| `StringFields.FieldTable.Set` | GameServer/Libraries/Include/google/protobuf/arenastring.h:267-274 | over any number of fields: exactly that field's value changes, in the string it had or in a new one; nothing is deleted and ownership stays exact |
| `StringFields.FieldTable.MutableAndWrite` | GameServer/Libraries/Include/google/protobuf/arenastring.h:289-294 | a caller writing to the string it got changes only that field, whose string is the one it had or a new one; nothing is deleted |
| `StringFields.FieldTable.Release` | GameServer/Libraries/Include/google/protobuf/arenastring.h:296-310 | the field's own string passes to the callers, who did not own it before, and the field points to the default |
| `StringFields.FieldTable.SetAllocated` | GameServer/Libraries/Include/google/protobuf/arenastring.h:312-322 | the very string the callers give passes to the field, or the default for none; the field's own is deleted once |
| `StringFields.FieldTable.DestroyLast` | GameServer/Libraries/Include/google/protobuf/arenastring.h:324-328 | a field's own string is deleted once when the field ends |
| `StringFields.FieldTable.ClearToEmpty` | GameServer/Libraries/Include/google/protobuf/arenastring.h:330-336 | the value becomes empty, for a default that is empty as the code assumes |
| `StringFields.FieldTable.ClearToDefault` | GameServer/Libraries/Include/google/protobuf/arenastring.h:338-345 | the value becomes the default's |
| `StringFields.FieldTable.Assign` | GameServer/Libraries/Include/google/protobuf/arenastring.h:388-396 | the value becomes the other field's; no string is shared and none deleted |
| `StringFields.FieldTable.SwapDebug` | GameServer/Libraries/Include/google/protobuf/arenastring.h:182-207 | the two values change places and no other does; each field has the string it had or a new one, and nothing is deleted |
| `StringFields.FieldTable.SwapRelease` | GameServer/Libraries/Include/google/protobuf/arenastring.h:182-207 | the same values as the debug form |
| `StringFields.FieldLoses` | GameServer/Libraries/Include/google/protobuf/arenastring.h:304-310 | a field's string is live and not the callers'; afterwards it is theirs, or deleted, and nobody else's |
| `StringRuns.Run` | GameServer/Libraries/Include/google/protobuf/arenastring.h:267-345 | over any run of operations on any number of fields and of strings in callers' hands, in a debug or a release build: what all fields show and what the callers hold is what the operations on plain values give; the default never changes; every string has one owner at every moment, and the ledger of the run records how strings move |
| `StringRuns.DebugAndRelease` | GameServer/Libraries/Include/google/protobuf/arenastring.h:182-207 | the same run from the same default in a debug and in a release build, with any Swaps in it, shows the same in every field and in every string the callers hold |
| `StringRuns.Do` | GameServer/Libraries/Include/google/protobuf/arenastring.h:267-345 | one operation of a run does the same to the values in both builds, and moves strings only from a field to the callers or to deletion, or from the callers to a field or to deletion |
| `StringRuns.EachStayEndsOnce` | GameServer/Libraries/Include/google/protobuf/arenastring.h:296-328 | over any run and for every string: each time it has come to a field it has left it exactly once, released or deleted, or is still there |
| `StringRuns.DeletedOnce` | GameServer/Libraries/Include/google/protobuf/arenastring.h:312-328 | over any run a string is deleted at the end exactly when it was at the beginning or was deleted once in between, and never twice |
| `StringRuns.DeletedForGood` | GameServer/Libraries/Include/google/protobuf/arenastring.h:312-328 | a deleted string belongs to no field and no caller ever after |

## Left out

* Allocation hooks, address sanitizer poisoning, memory orders weaker than sequential consistency, the templates of
  arena.h, and the wrap-around of the 64-bit lifecycle counter.
* In `ArenaThreads`, threads may enter an arena whose constructor still fills the cache, which the code never does;
  the invariant holds all the same.
* In `Arenas`, the cache and the hint: one thread at a time finds its SerialArena by the walk; that the fast paths
  return the same one is proved in `ArenaThreads`, which in turn does not model block contents.
* The debug checks of `SerialArena::New` are preconditions: an initial block too small for a SerialArena is not
  modelled.
* `EncodedDescriptorDatabase`, `DescriptorPoolDatabase` and the default `FindAllPackageNames` and
  `FindAllMessageNames`, which need descriptor parsing and pools that are not part of this model.
* What `MergedDescriptorDatabase` leaves in its output argument when it returns false, and which file a merged
  database hides when two different sources hold equal files.
* Chunked input streams, aliasing and the reserve bytes behind a buffer; a read past a limit fails at once.
* The unknown field set as a heap structure: it is a sequence of records, groups as nested sequences.
* S_EnterGame, S_MyPlayer, C_Move and S_Move: one bool and varint, or one sub-message, all of which S_Attack has.
* Generated accessors, reflection, copying, `InternalSwap`, and `MergeFrom` with the message itself as argument,
  which the code forbids.
* The arena forms of `ArenaStringPtr`; in `FieldTable`, who calls the fields is modelled only as far as who owns
  which string.
- PacketMessages.STestMessage.ByteSizeLong: sums are natural numbers; a `size_t` that wraps is not modelled.
