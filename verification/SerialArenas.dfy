/** One thread's part of an arena: bump allocation over a chain of blocks, with a chunked list of cleanups inside. */
module SerialArenas {
  import opened Prelude
  import opened ArenaBlocks

  /** The counter and the options that the SerialArenas of one arena share: the allocating side of ArenaImpl. */
  class BlockSource {
    const options: Options
    var spaceAllocated: nat

    constructor (options: Options)
      ensures this.options == options && spaceAllocated == 0
    {
      this.options, spaceAllocated := options, 0;
    }

    /** NewBlock; block_alloc is an allocation, and the overflow check is the precondition. */
    method NewBlock(last: Block?, minBytes: nat) returns (b: Block)
      requires minBytes <= SIZE_MAX - options.layout.header
      modifies this
      ensures fresh(b) && b.next == last && b.pos == options.layout.header
      ensures b.size == NextBlockSize(options, if last == null then None else Some(last.size), minBytes)
      ensures b.size >= options.layout.header + minBytes
      ensures b.size > options.layout.header + minBytes ==>
        if last == null then b.size == options.startBlockSize
        else b.size <= 2 * last.size && b.size <= options.maxBlockSize
      ensures last == null ==> b.size >= options.startBlockSize
      ensures last != null ==> b.size >= 2 * last.size || b.size >= options.maxBlockSize
      ensures spaceAllocated == old(spaceAllocated) + b.size
    {
      var size;
      if last != null {
        size := Min(2 * last.size, options.maxBlockSize);
      } else {
        size := options.startBlockSize;
      }
      size := Max(size, options.layout.header + minBytes);
      b := new Block(size, last, options.layout.header);
      spaceAllocated := spaceAllocated + size;
    }
  }

  class SerialArena {
    const arena: BlockSource
    const owner: int
    var next: SerialArena?
    var head: Block
    var ptr: nat
    var limit: nat
    var cleanup: CleanupChunk?
    var cleanupPtr: nat
    var cleanupLimit: nat

    ghost var blocks: seq<Block>
    ghost var used: seq<nat>
    ghost var regions: seq<Region>
    ghost var chunks: seq<CleanupChunk>
    ghost var registered: seq<CleanupNode>

    ghost function Sizes(): Layout
    {
      arena.options.layout
    }

    /** The fields agree with the block list; only the positions of blocks left behind are kept in them. */
    ghost predicate BlocksValid()
      reads `head, `ptr, `limit, `blocks, `used, blocks`pos
    {
      && Chain(blocks) && |used| == |blocks|
      && head == blocks[|blocks| - 1] && limit == head.size && ptr == used[|blocks| - 1]
      && forall i | 0 <= i < |blocks| - 1 :: blocks[i].pos == used[i]
    }

    /** Chunks by age, each full but the newest, hold the registered cleanups in order. */
    ghost predicate CleanupsValid()
      reads `chunks, `cleanup, `cleanupPtr, `cleanupLimit, `registered, set c | c in chunks :: c.nodes
    {
      && (forall k | 0 <= k < |chunks| :: chunks[k].size == chunks[k].nodes.Length == ChunkSize(k))
      && (chunks != [] ==> chunks[0].next == null)
      && (forall k | 0 < k < |chunks| :: chunks[k].next == chunks[k - 1])
      && (forall j, k | 0 <= j < k < |chunks| :: chunks[j].nodes != chunks[k].nodes)
      && cleanup == (if chunks == [] then null else chunks[|chunks| - 1])
      && cleanupLimit == (if chunks == [] then 0 else ChunkSize(|chunks| - 1)) && cleanupPtr <= cleanupLimit
      && |registered| == Full() + cleanupPtr
      && (forall k | 0 <= k < |chunks| :: Holds(chunks[k], ChunkStart(k), registered))
    }

    /** How many cleanups the chunks before the newest hold. */
    ghost function Full(): nat
      reads `chunks
    {
      if chunks == [] then 0 else ChunkStart(|chunks| - 1)
    }

    /** Everything this arena reads or writes that no other one may. */
    ghost function Repr(): (r: set<object>)
      reads `blocks, `chunks
      ensures this in r
    {
      {this} + Objects(blocks, chunks)
    }

    ghost predicate MemoryValid(owed: nat := 0)
      reads `head, `ptr, `limit, `blocks, `used, `regions, blocks`pos
    {
      && Sizes().Valid()
      && BlocksValid()
      && Packed(Sizes(), blocks, used, owed)
      && Placed(Sizes(), used, regions)
      && HandedOut(Sizes(), used) == Total(regions)
    }

    ghost predicate Valid()
      reads this, Repr()
    {
      Sizes().Valid() && MemoryValid() && ChunksPlaced(Sizes(), regions, chunks) && CleanupsValid()
    }

    /** SerialArena::New, inside a fresh block. */
    constructor (b: Block, owner: int, arena: BlockSource)
      requires arena.options.layout.Valid()
      requires b.next == null && b.pos == arena.options.layout.header
      requires b.size >= arena.options.layout.header + arena.options.layout.serial
      modifies b
      ensures Valid() && blocks == [b] && regions == [] && registered == [] && Repr() == {this, b}
      ensures this.arena == arena && this.owner == owner && next == null && b.pos == Bottom(Sizes(), 0)
    {
      this.arena, this.owner, next := arena, owner, null;
      head := b;
      ptr := arena.options.layout.header + arena.options.layout.serial;
      limit := b.size;
      cleanup, cleanupPtr, cleanupLimit := null, 0, 0;
      blocks, regions, chunks, registered := [b], [], [], [];
      used := [arena.options.layout.header + arena.options.layout.serial];
      new;
      b.pos := arena.options.layout.header + arena.options.layout.serial;
      assert HandedOut(Sizes(), used) == 0;
      assert Repr() == {this, b};
    }

    method SetNext(next: SerialArena?)
      requires Valid()
      modifies `next
      ensures Valid() && this.next == next
    {
      hide MemoryValid, CleanupsValid, ChunksPlaced, Repr;
      this.next := next;
    }

    /** The k-th region is that range, handed out to a caller. */
    ghost predicate HandsOut(k: nat, block: Block, offset: nat, len: nat)
      reads `regions, `blocks
    {
      && k < |regions| && regions[k].block < |blocks| && blocks[regions[k].block] == block
      && regions[k].start == offset && regions[k].len == len && regions[k].use == Request
    }

    predicate HasSpace(n: nat)
      requires ptr <= limit
      reads this
    {
      n <= limit - ptr
    }

    /**
     * AllocateAligned: the next free bytes of the head block, or of a new one. The new region is the last of
     * `regions`, for the given use; at most one block is added, and only when the head has no room.
     */
    method AllocateFor(n: nat, ghost use: Use, ghost owed: nat) returns (block: Block, offset: nat)
      requires n % 8 == 0 && n <= SIZE_MAX - Sizes().header
      requires MemoryValid(owed) && (owed == 0 || (owed == n && n <= limit - ptr))
      modifies `head, `ptr, `limit, `blocks, `used, `regions, head`pos, arena
      ensures MemoryValid()
      ensures blocks != [] && head == block == blocks[|blocks| - 1] && (head == old(head) || fresh(head))
      ensures regions == old(regions) + [Region(|blocks| - 1, offset, n, use)]
      ensures n <= old(limit - ptr) ==> blocks == old(blocks)
      ensures n > old(limit - ptr) ==>
        && |blocks| == |old(blocks)| + 1 && old(blocks) <= blocks && fresh(block)
        && block.size == NextBlockSize(arena.options, Some(old(head.size)), n)
      ensures arena.spaceAllocated == old(arena.spaceAllocated) + SumSizes(blocks) - SumSizes(old(blocks))
      ensures use == Request ==> Requested(regions) == old(Requested(regions)) + n
      ensures use == Request && old(ChunksPlaced(Sizes(), regions, chunks)) ==> ChunksPlaced(Sizes(), regions, chunks)
      ensures forall o | o in Repr() :: o in old(Repr()) || fresh(o)
      decreases if n <= limit - ptr then 0 else 2
    {
      hide Packed, Placed, HandedOut, Total, SumSizes, CleanupsValid, ChunksPlaced, Requested, Chain, Objects;
      FilledUpTo(Sizes(), blocks, used, owed);
      if !HasSpace(n) {
        block, offset := AllocateAlignedFallback(n, use);
        return;
      }
      BumpKeeps(Sizes(), blocks, used, regions, n, use, owed);
      BumpTotals(Sizes(), used, regions, Region(|used| - 1, ptr, n, use));
      block, offset := head, ptr;
      ptr := ptr + n;
      RequestPlaced(regions, Region(|used| - 1, offset, n, use));
      regions := regions + [Region(|used| - 1, offset, n, use)];
      used := Bump(used, n);
    }

    lemma RequestPlaced(before: seq<Region>, r: Region)
      ensures r.use == Request && ChunksPlaced(Sizes(), before, chunks) ==> ChunksPlaced(Sizes(), before + [r], chunks)
      ensures r.use == Request ==> Requested(before + [r]) == Requested(before) + r.len
    {
      RequestedSnoc(before, r);
      if r.use == Request && ChunksPlaced(Sizes(), before, chunks) {
        ChunksPlacedSnoc(Sizes(), before, chunks, r);
      }
    }

    method AllocateAlignedFallback(n: nat, ghost use: Use) returns (block: Block, offset: nat)
      requires n % 8 == 0 && n <= SIZE_MAX - Sizes().header
      requires MemoryValid() && n > limit - ptr
      modifies `head, `ptr, `limit, `blocks, `used, `regions, head`pos, arena
      ensures MemoryValid()
      ensures blocks != [] && head == block == blocks[|blocks| - 1] && (head == old(head) || fresh(head))
      ensures regions == old(regions) + [Region(|blocks| - 1, offset, n, use)]
      ensures |blocks| == |old(blocks)| + 1 && old(blocks) <= blocks && fresh(block)
      ensures block.size == NextBlockSize(arena.options, Some(old(head.size)), n)
      ensures arena.spaceAllocated == old(arena.spaceAllocated) + SumSizes(blocks) - SumSizes(old(blocks))
      ensures use == Request ==> Requested(regions) == old(Requested(regions)) + n
      ensures use == Request && old(ChunksPlaced(Sizes(), regions, chunks)) ==> ChunksPlaced(Sizes(), regions, chunks)
      ensures forall o | o in Repr() :: o in old(Repr()) || fresh(o)
      decreases 1
    {
      hide Packed, Placed, HandedOut, Total, SumSizes, CleanupsValid, ChunksPlaced, Requested, Objects;
      FilledUpTo(Sizes(), blocks, used, 0);
      head.pos := head.size - (limit - ptr);
      head := arena.NewBlock(head, n);
      ptr := head.pos;
      limit := head.size;
      NewBlockKeeps(Sizes(), blocks, used, regions, head, n);
      ChainSnoc(blocks, head);
      ObjectsWithBlock(blocks, chunks, head);
      blocks, used := blocks + [head], used + [Sizes().header];
      assert forall i | 0 <= i < |blocks| - 1 :: blocks[i].pos == used[i];
      assert BlocksValid();
      block, offset := AllocateFor(n, use, n);
    }

    /** AllocateAligned as a caller sees it. */
    method AllocateAligned(n: nat) returns (block: Block, offset: nat)
      requires n % 8 == 0 && n <= SIZE_MAX - Sizes().header && Valid()
      modifies `head, `ptr, `limit, `blocks, `used, `regions, head`pos, arena
      ensures Valid() && (head == old(head) || fresh(head))
      ensures regions == old(regions) + [Region(|blocks| - 1, offset, n, Request)] && block == blocks[|blocks| - 1]
      ensures n <= old(limit - ptr) ==> blocks == old(blocks)
      ensures n > old(limit - ptr) ==>
        && |blocks| == |old(blocks)| + 1 && old(blocks) <= blocks && fresh(block)
        && block.size == NextBlockSize(arena.options, Some(old(head.size)), n)
      ensures Requested(regions) == old(Requested(regions)) + n
      ensures arena.spaceAllocated == old(arena.spaceAllocated) + SumSizes(blocks) - SumSizes(old(blocks))
      ensures forall o | o in Repr() :: o in old(Repr()) || fresh(o)
    {
      hide MemoryValid, ChunksPlaced, Requested, SumSizes, CleanupsValid, Repr;
      block, offset := AllocateFor(n, Request, 0);
    }

    lemma Footprint()
      requires Valid()
      ensures head in Repr() && (cleanup != null ==> cleanup.nodes in Repr()) && blocks != []
    {
      hide Packed, Placed, HandedOut, Total, ChunksPlaced;
    }

    /** Like AllocateAligned, but only from the present block. */
    method MaybeAllocateAligned(n: nat) returns (ok: bool, block: Block, offset: nat)
      requires n % 8 == 0 && Valid()
      modifies `ptr, `used, `regions
      ensures Valid() && block == head && (ok <==> n <= old(limit - ptr))
      ensures regions == old(regions) + if ok then [Region(|blocks| - 1, offset, n, Request)] else []
    {
      hide Packed, Placed, HandedOut, Total, ChunksPlaced, CleanupsValid, Chain;
      FilledUpTo(Sizes(), blocks, used, 0);
      if !HasSpace(n) {
        return false, head, ptr;
      }
      var r := Region(|used| - 1, ptr, n, Request);
      BumpKeeps(Sizes(), blocks, used, regions, n, Request, 0);
      BumpTotals(Sizes(), used, regions, r);
      ChunksPlacedSnoc(Sizes(), regions, chunks, r);
      ok, block, offset := true, head, ptr;
      ptr := ptr + n;
      regions := regions + [r];
      used := Bump(used, n);
    }

    /** Registers a cleanup in the newest chunk, or in a new one twice as large. */
    method AddCleanup(elem: Pointer, fn: int)
      requires Valid()
      modifies this, head`pos, arena, if cleanup == null then {} else {cleanup.nodes}
      ensures Valid() && registered == old(registered) + [CleanupNode(elem, fn)]
      ensures next == old(next)
      ensures old(blocks) <= blocks && old(chunks) <= chunks && old(regions) <= regions
      ensures forall r | r in regions[|old(regions)|..] ::
        r.use.Chunk? && HasRoom(Sizes(), r.len, r.use.chunk.size)
      ensures forall o | o in Repr() :: o in old(Repr()) || fresh(o)
      ensures Requested(regions) == old(Requested(regions))
      ensures arena.spaceAllocated == old(arena.spaceAllocated) + SumSizes(blocks) - SumSizes(old(blocks))
      decreases if cleanupPtr == cleanupLimit then 2 else 0
    {
      hide MemoryValid, CleanupsValid, ChunksPlaced, Requested, SumSizes, Repr;
      NewestChunk();
      if cleanupPtr == cleanupLimit {
        AddCleanupFallback(elem, fn);
        return;
      }
      AppendNode(CleanupNode(elem, fn));
    }

    lemma NewestChunk()
      requires CleanupsValid()
      ensures cleanupPtr <= cleanupLimit
      ensures cleanupPtr < cleanupLimit ==> cleanup != null && cleanupLimit == cleanup.nodes.Length
      ensures cleanup != null ==> chunks != [] && cleanup == chunks[|chunks| - 1]
    {
    }

    method AppendNode(node: CleanupNode)
      requires CleanupsValid() && cleanup != null && cleanupPtr < cleanupLimit
      modifies `cleanupPtr, `registered, cleanup.nodes
      ensures CleanupsValid() && registered == old(registered) + [node]
    {
      hide Holds, ChunkStart, ChunkSize;
      ghost var last := |chunks| - 1;
      forall k | 0 <= k < last
        ensures ChunkStart(k) + ChunkSize(k) <= Full()
      {
        ChunkStartGrows(k, last);
      }
      ghost var before := cleanup.nodes[..];
      HeldPrefix(cleanup, ChunkStart(last), registered);
      cleanup.nodes[cleanupPtr] := node;
      forall k | 0 <= k < last
        ensures Holds(chunks[k], ChunkStart(k), registered + [node])
      {
        HoldsMore(chunks[k], ChunkStart(k), registered, node);
      }
      HoldsOneMore(cleanup, ChunkStart(last), registered, node, before);
      cleanupPtr := cleanupPtr + 1;
      registered := registered + [node];
    }

    lemma NextChunkSize()
      requires CleanupsValid()
      ensures ChunkSize(|chunks|)
           == if cleanup == null then MIN_CLEANUP_ELEMENTS else Min(cleanup.size * 2, MAX_CLEANUP_ELEMENTS)
      ensures 0 < ChunkSize(|chunks|) <= MAX_CLEANUP_ELEMENTS
    {
    }

    /** A chunk in the arena's own memory. */
    method NewChunk(size: nat, filler: CleanupNode) returns (list: CleanupChunk)
      requires Sizes().Valid() && MemoryValid() && ChunksPlaced(Sizes(), regions, chunks)
      requires 0 < size <= MAX_CLEANUP_ELEMENTS
      modifies `head, `ptr, `limit, `blocks, `used, `regions, head`pos, arena
      ensures MemoryValid() && ChunksPlaced(Sizes(), regions, chunks + [list])
      ensures head == old(head) || fresh(head)
      ensures list.next == cleanup && list.size == size == list.nodes.Length && fresh(list.nodes)
      ensures |regions| == |old(regions)| + 1 && old(regions) <= regions && regions[|old(regions)|].use == Chunk(list)
      ensures HasRoom(Sizes(), regions[|old(regions)|].len, size)
      ensures old(blocks) <= blocks && forall o | o in Repr() :: o in old(Repr()) || fresh(o)
      ensures Requested(regions) == old(Requested(regions))
      ensures arena.spaceAllocated == old(arena.spaceAllocated) + SumSizes(blocks) - SumSizes(old(blocks))
    {
      hide MemoryValid, ChunksPlaced, Requested, SumSizes, ChunkBytes;
      var bytes := ChunkBytes(arena.options.layout, size);
      ChunkFits(Sizes(), size);
      ChunkBytesHaveRoom(Sizes(), size);
      list := new CleanupChunk(size, cleanup, filler);
      var _, offset := AllocateFor(bytes, Chunk(list), 0);
      ghost var region := Region(|blocks| - 1, offset, bytes, Chunk(list));
      ChunksPlacedSnoc(Sizes(), old(regions), chunks, region);
      RequestedSnoc(old(regions), region);
    }

    /** The new chunk becomes the newest. */
    method UseChunk(list: CleanupChunk)
      requires CleanupsValid() && cleanupPtr == cleanupLimit
      requires list.next == cleanup && list.size == list.nodes.Length == ChunkSize(|chunks|)
      requires forall k | 0 <= k < |chunks| :: chunks[k].nodes != list.nodes
      modifies `cleanup, `cleanupPtr, `cleanupLimit, `chunks
      ensures CleanupsValid() && chunks == old(chunks) + [list] && cleanup == list
      ensures Repr() == old(Repr()) + {list.nodes}
      ensures cleanupPtr < cleanupLimit
    {
      hide Holds, ChunkStart, ChunkSize, Objects;
      NextChunkStart(|chunks|);
      HoldsNothing(list, ChunkStart(|chunks|), registered);
      ObjectsSnoc(blocks, chunks, list);
      cleanup, cleanupPtr, cleanupLimit := list, 0, list.size;
      chunks := chunks + [list];
    }

    method AddCleanupFallback(elem: Pointer, fn: int)
      requires Valid() && cleanupPtr == cleanupLimit
      modifies this, head`pos, arena
      ensures Valid() && registered == old(registered) + [CleanupNode(elem, fn)]
      ensures next == old(next)
      ensures old(blocks) <= blocks && old(chunks) <= chunks && old(regions) <= regions
      ensures forall r | r in regions[|old(regions)|..] ::
        r.use.Chunk? && HasRoom(Sizes(), r.len, r.use.chunk.size)
      ensures forall o | o in Repr() :: o in old(Repr()) || fresh(o)
      ensures Requested(regions) == old(Requested(regions))
      ensures arena.spaceAllocated == old(arena.spaceAllocated) + SumSizes(blocks) - SumSizes(old(blocks))
      decreases 1
    {
      hide MemoryValid, ChunksPlaced, Requested, SumSizes, CleanupsValid, ChunkSize, Repr;
      NextChunkSize();
      var size := if cleanup != null then cleanup.size * 2 else MIN_CLEANUP_ELEMENTS;
      size := Min(size, MAX_CLEANUP_ELEMENTS);
      var list := NewChunk(size, CleanupNode(elem, fn));
      UseChunk(list);
      AddCleanup(elem, fn);
    }

    method AllocateAlignedAndAddCleanup(n: nat, fn: int) returns (block: Block, offset: nat)
      requires n % 8 == 0 && n <= SIZE_MAX - Sizes().header && Valid()
      modifies this, head`pos, arena, if cleanup == null then {} else {cleanup.nodes}
      ensures Valid() && registered == old(registered) + [CleanupNode(InBlock(block, offset), fn)]
      ensures next == old(next)
      ensures old(blocks) <= blocks && old(chunks) <= chunks
      ensures old(regions) <= regions && |old(regions)| < |regions|
      ensures HandsOut(|old(regions)|, block, offset, n)
      ensures forall r | r in regions[|old(regions)| + 1..] :: r.use.Chunk?
      ensures forall o | o in Repr() :: o in old(Repr()) || fresh(o)
      ensures Requested(regions) == old(Requested(regions)) + n
      ensures arena.spaceAllocated == old(arena.spaceAllocated) + SumSizes(blocks) - SumSizes(old(blocks))
    {
      hide MemoryValid, ChunksPlaced, Requested, SumSizes, CleanupsValid, Repr;
      block, offset := AllocateAligned(n);
      AddCleanup(InBlock(block, offset), fn);
    }

    /** Runs the cleanups; `ran` is the calls in order. */
    method CleanupList() returns (ran: seq<CleanupNode>)
      requires Valid()
      ensures ran == Reversed(registered)
      ensures |ran| == |registered| && forall k | 0 <= k < |ran| :: ran[k] == registered[|registered| - 1 - k]
    {
      ReversedIs(registered);
      if cleanup != null {
        ran := CleanupListFallback();
      } else {
        ran := [];
      }
    }

    method CleanupListFallback() returns (ran: seq<CleanupNode>)
      requires CleanupsValid() && cleanup != null
      ensures ran == Reversed(registered)
    {
      hide ChunkStart, ChunkSize;
      var n: nat := cleanupPtr;
      var list := cleanup;
      ghost var k := |chunks| - 1;
      ran := [];
      assert registered[ChunkStart(k) + n..] == [];
      while true
        invariant 0 <= k < |chunks| && list == chunks[k]
        invariant n <= list.nodes.Length && ChunkStart(k) + n <= |registered|
        invariant ran == Reversed(registered[ChunkStart(k) + n..])
        decreases k
      {
        NextChunkStart(k);
        ran := RunChunk(list, n, ChunkStart(k), ran);
        if list.next == null {
          break;
        }
        list := list.next;
        n := list.size;
        k := k - 1;
      }
      assert registered[0..] == registered;
    }

    /** The inner loop: the newest of the first n nodes first. */
    method RunChunk(list: CleanupChunk, n: nat, ghost start: nat, before: seq<CleanupNode>)
      returns (ran: seq<CleanupNode>)
      requires Holds(list, start, registered) && n <= list.nodes.Length && start + n <= |registered|
      requires before == Reversed(registered[start + n..])
      ensures ran == Reversed(registered[start..])
    {
      ran := before;
      var i := n;
      while i > 0
        invariant 0 <= i <= n
        invariant ran == Reversed(registered[start + i..])
      {
        assert registered[start + i - 1..][1..] == registered[start + i..];
        ran := ran + [list.nodes[i - 1]];
        i := i - 1;
      }
    }

    /** Bytes handed out, read off the fill positions. */
    method SpaceUsed() returns (space: int)
      requires Valid()
      ensures space == Total(regions)
    {
      hide Packed, Placed, Total, CleanupsValid, ChunksPlaced, HandedOut;
      var header := arena.options.layout.header;
      space := ptr - header;
      var b := head.next;
      ghost var k := |blocks| - 1;
      HandedOutUpTo(Sizes(), used, k);
      assert used[..|used|] == used;
      while b != null
        invariant 0 <= k < |blocks| && b == (if k == 0 then null else blocks[k - 1])
        invariant space
               == HandedOut(Sizes(), used) - HandedOut(Sizes(), used[..k]) + if k == 0 then Sizes().serial else 0
        decreases k
      {
        k := k - 1;
        HandedOutUpTo(Sizes(), used, k);
        space := space + (b.pos - header);
        b := b.next;
      }
      NothingHandedOut(Sizes(), used);
      assert space == HandedOut(Sizes(), used) + Sizes().serial;
      space := space - arena.options.layout.serial;
    }

    /** Frees every block but the initial one, newest first: `freed` is the calls of block_dealloc. */
    method Free(initialBlock: Block?) returns (space: nat, freed: seq<(Block, nat)>)
      requires Valid()
      ensures space == SumSizes(blocks)
      ensures freed == Deallocated(blocks, initialBlock)
    {
      hide Packed, Placed, Total, CleanupsValid, ChunksPlaced, HandedOut, SumSizes, Deallocated;
      var b: Block? := head;
      ghost var k := |blocks|;
      space, freed := 0, [];
      assert blocks[..k] == blocks;
      NothingToFree(blocks, initialBlock);
      while b != null
        invariant 0 <= k <= |blocks| && b == (if k == 0 then null else blocks[k - 1])
        invariant space + SumSizes(blocks[..k]) == SumSizes(blocks)
        invariant freed + Deallocated(blocks[..k], initialBlock) == Deallocated(blocks, initialBlock)
        decreases k
      {
        OneToFree(blocks, initialBlock, k, freed);
        var nextBlock := b.next;
        space := space + b.size;
        if b != initialBlock {
          freed := freed + [(b, b.size)];
        }
        b := nextBlock;
        k := k - 1;
      }
    }

    /** The region is aligned and inside one of the blocks, clear of its header and of the SerialArena. */
    ghost predicate InLiveMemory(r: Region)
      reads `blocks
    {
      && r.block < |blocks| && r.start % 8 == 0
      && Bottom(Sizes(), r.block) <= r.start <= r.start + r.len <= blocks[r.block].size
    }

    lemma RangeIsLive(k: nat)
      requires Valid() && k < |regions|
      ensures InLiveMemory(regions[k])
      ensures var r := regions[k];
        && r.start % 8 == 0 && r.block < |blocks| && r.start + r.len <= blocks[r.block].size
        && r.start >= Sizes().header + if r.block == 0 then Sizes().serial else 0
    {
      hide HandedOut, Total, CleanupsValid, ChunksPlaced;
    }

    lemma LiveBlock(r: Region)
      requires InLiveMemory(r)
      ensures r.block < |blocks| && blocks[r.block] in blocks
    {
    }

    /** Any two ranges ever handed out, for a caller or for a cleanup chunk, are apart, and none covers a header. */
    lemma RangesAreApart(j: nat, k: nat)
      requires Valid() && j < k < |regions|
      ensures var a, b := regions[j], regions[k];
        && a.block < |blocks| && b.block < |blocks|
        && a.start % 8 == 0 && b.start % 8 == 0
        && Bottom(Sizes(), a.block) <= a.start <= a.start + a.len <= blocks[a.block].size
        && Bottom(Sizes(), b.block) <= b.start <= b.start + b.len <= blocks[b.block].size
        && (blocks[a.block] != blocks[b.block] || a.start + a.len <= b.start)
    {
      hide HandedOut, Total, CleanupsValid, ChunksPlaced;
    }

    /**
     * A chunk's range has room for all its nodes: node i, at its place behind the chunk's own fields, is inside the
     * range, which is less than 8 bytes longer than they need.
     */
    lemma NodesFit(k: nat, i: nat)
      requires Valid() && k < |regions| && regions[k].use.Chunk? && i < regions[k].use.chunk.size
      ensures var r, l, n := regions[k], Sizes(), regions[k].use.chunk.size;
        var node := r.start + l.chunk - l.node + i * l.node;
        && r.start <= node && node + l.node <= r.start + r.len
        && l.chunk + l.node * (n - 1) <= r.len < l.chunk + l.node * (n - 1) + 8
    {
      hide Packed, Placed, HandedOut, Total, CleanupsValid, BlocksValid, ChunkBytes;
      var l, n := Sizes(), regions[k].use.chunk.size;
      ChunkBytesHaveRoom(l, n);
      NodeIsBeforeEnd(l.chunk, l.node, i, n);
    }

    /** So a node overlaps no request, no other chunk, no header, no SerialArena and no other node. */
    lemma NodesAreApart(k: nat, i: nat, j: nat)
      requires Valid() && k < |regions| && regions[k].use.Chunk? && i < regions[k].use.chunk.size
      ensures var r, l := regions[k], Sizes(); var node := r.start + l.chunk - l.node + i * l.node;
        && r.block < |blocks| && node + l.node <= blocks[r.block].size
        && node >= l.header + (if r.block == 0 then l.serial else 0)
        && (j < |regions| && j != k ==>
              var o := regions[j];
              o.block < |blocks|
              && (blocks[o.block] != blocks[r.block] || o.start + o.len <= node || node + l.node <= o.start))
        && (j < i ==> r.start + l.chunk - l.node + j * l.node + l.node <= node)
    {
      NodesFit(k, i);
      hide Packed, Placed, HandedOut, Total, CleanupsValid, BlocksValid, ChunkBytes;
      RangeIsLive(k);
      if j < |regions| && j != k {
        RangesAreApart(if j < k then j else k, if j < k then k else j);
      }
      if j < i {
        NodeIsBeforeEnd(0, Sizes().node, j, i);
      }
    }

    /** SpaceUsed counts the requests and the cleanup chunks, and leaves room for the headers and this SerialArena. */
    lemma SpaceIsConserved()
      requires Valid()
      ensures Total(regions) == Requested(regions) + AllChunkBytes(Sizes(), |chunks|)
      ensures Total(regions) + Sizes().header * |blocks| + Sizes().serial <= SumSizes(blocks)
    {
      hide Placed, BlocksValid, ChunkSize, ChunkBytes, HandedOut, Total;
      TotalIsRequestedPlusChunks(Sizes(), regions);
      HandedOutFits(Sizes(), blocks, used);
    }

    /** The waste bound of this arena. */
    lemma WasteIsBounded()
      requires Valid()
      ensures AbandonedRoom(Sizes(), blocks, |blocks| - 1) <= 2 * Total(regions)
      ensures blocks != [] && var left := |blocks| - 1;
        SumSizes(blocks[..left]) <= 2 * Total(regions) + Sizes().header * left + if left == 0 then 0 else Sizes().serial
    {
      AbandonedRoomIs(Sizes(), blocks, |blocks| - 1);
      WasteBound(Sizes(), blocks, used);
    }
  }

  /** The chunk has the registered cleanups from `start` on, as far as they go or as far as it reaches. */
  ghost predicate Holds(c: CleanupChunk, start: nat, registered: seq<CleanupNode>)
    reads c.nodes
  {
    forall j | 0 <= j < c.nodes.Length && start + j < |registered| :: c.nodes[j] == registered[start + j]
  }

  lemma HoldsMore(c: CleanupChunk, start: nat, registered: seq<CleanupNode>, node: CleanupNode)
    requires Holds(c, start, registered) && start + c.nodes.Length <= |registered|
    ensures Holds(c, start, registered + [node])
  {
  }

  lemma HeldPrefix(c: CleanupChunk, start: nat, registered: seq<CleanupNode>)
    requires Holds(c, start, registered) && start <= |registered| <= start + c.nodes.Length
    ensures c.nodes[..][..|registered| - start] == registered[start..]
  {
  }

  lemma HoldsOneMore(c: CleanupChunk, start: nat, registered: seq<CleanupNode>, node: CleanupNode,
                     before: seq<CleanupNode>)
    requires start <= |registered| < start + c.nodes.Length && |before| == c.nodes.Length
    requires before[..|registered| - start] == registered[start..]
    requires c.nodes[..] == before[|registered| - start := node]
    ensures Holds(c, start, registered + [node])
  {
    forall j | 0 <= j < c.nodes.Length && start + j <= |registered|
      ensures c.nodes[j] == (registered + [node])[start + j]
    {
      assert c.nodes[j] == c.nodes[..][j];
      assert start + j < |registered| ==> before[j] == before[..|registered| - start][j] == registered[start..][j];
    }
  }

  lemma HoldsNothing(c: CleanupChunk, start: nat, registered: seq<CleanupNode>)
    requires start == |registered|
    ensures Holds(c, start, registered)
  {
  }

  lemma NextChunkStart(k: nat)
    ensures ChunkStart(k) == if k == 0 then 0 else ChunkStart(k - 1) + ChunkSize(k - 1)
  {
  }

  lemma OneToFree(blocks: seq<Block>, initialBlock: Block?, k: nat, freed: seq<(Block, nat)>)
    requires 0 < k <= |blocks|
    ensures var b := blocks[k - 1];
      && SumSizes(blocks[..k]) == b.size + SumSizes(blocks[..k - 1])
      && freed + Deallocated(blocks[..k], initialBlock)
         == freed + (if b == initialBlock then [] else [(b, b.size)]) + Deallocated(blocks[..k - 1], initialBlock)
  {
    assert blocks[..k][..k - 1] == blocks[..k - 1];
  }

  lemma NothingToFree(blocks: seq<Block>, initialBlock: Block?)
    ensures SumSizes(blocks[..0]) == 0 && Deallocated(blocks[..0], initialBlock) == []
  {
  }

  lemma HandedOutUpTo(layout: Layout, used: seq<nat>, k: nat)
    requires k < |used|
    ensures HandedOut(layout, used[..k + 1]) == HandedOut(layout, used[..k]) + used[k] - Bottom(layout, k)
  {
    assert used[..k + 1][..k] == used[..k];
  }

  lemma NothingHandedOut(layout: Layout, used: seq<nat>)
    ensures HandedOut(layout, used[..0]) == 0
  {
  }

  lemma ChunkFits(layout: Layout, size: nat)
    requires layout.Valid() && 0 < size <= MAX_CLEANUP_ELEMENTS
    ensures ChunkBytes(layout, size) % 8 == 0 && ChunkBytes(layout, size) <= SIZE_MAX - layout.header
  {
    hide AlignUpTo8;
    MulMonotone(layout.node, size - 1, MAX_CLEANUP_ELEMENTS - 1);
    AlignMonotone(layout.chunk + layout.node * (size - 1), layout.chunk + layout.node * (MAX_CLEANUP_ELEMENTS - 1));
  }

  lemma NodeIsBeforeEnd(chunk: nat, node: nat, i: nat, n: nat)
    requires i < n
    ensures i * node >= 0 && chunk + i * node <= chunk + node * (n - 1) && (i + 1) * node <= n * node
    ensures i * node + node <= n * node && node * (n - 1) == n * node - node
  {
    MulMonotone(node, i, n - 1);
    MulMonotone(node, i + 1, n);
  }

  lemma MulMonotone(a: nat, b: nat, c: nat)
    requires b <= c
    ensures a * b <= a * c
  {
  }

  lemma AlignMonotone(a: nat, b: nat)
    requires a <= b
    ensures AlignUpTo8(a) <= AlignUpTo8(b)
  {
  }

  ghost function Objects(blocks: seq<Block>, chunks: seq<CleanupChunk>): set<object>
  {
    (set b: object | b in blocks) + set c | c in chunks :: c.nodes as object
  }

  lemma ObjectsWithBlock(blocks: seq<Block>, chunks: seq<CleanupChunk>, b: Block)
    ensures Objects(blocks + [b], chunks) == Objects(blocks, chunks) + {b}
  {
  }

  lemma ObjectsSnoc(blocks: seq<Block>, chunks: seq<CleanupChunk>, list: CleanupChunk)
    ensures Objects(blocks, chunks + [list]) == Objects(blocks, chunks) + {list.nodes}
  {
    assert forall c :: c in chunks + [list] <==> c in chunks || c == list;
    assert list in chunks + [list];
  }

  lemma FilledUpTo(layout: Layout, blocks: seq<Block>, used: seq<nat>, owed: nat)
    requires Packed(layout, blocks, used, owed)
    ensures |blocks| == |used| > 0 && used[|used| - 1] <= blocks[|used| - 1].size
  {
  }
}
