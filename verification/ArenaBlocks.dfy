/**
 * The memory an arena hands out, as arithmetic over its blocks. Lists are kept oldest first: the last block is
 * the one being filled, and a block's place in the list never changes.
 */
module ArenaBlocks {
  import opened Prelude

  const SIZE_MAX := TWO_64 - 1
  const MIN_CLEANUP_ELEMENTS := 8
  const MAX_CLEANUP_ELEMENTS := 64

  function Min(a: nat, b: nat): nat
  {
    if a <= b then a else b
  }

  function Max(a: nat, b: nat): nat
  {
    if a >= b then a else b
  }

  /** (n + 7) & -8 without wrap-around. */
  function AlignUpTo8(n: nat): (r: nat)
    ensures r % 8 == 0 && n <= r < n + 8
  {
    (n + 7) / 8 * 8
  }

  /** The same on 64-bit words, for every n that does not wrap. */
  lemma AlignUpTo8Bits(n: bv64)
    requires n <= 0xFFFF_FFFF_FFFF_FFF8
    ensures var r := (n + 7) & 0xFFFF_FFFF_FFFF_FFF8; r & 7 == 0 && n <= r && r - n <= 7
  {
  }

  /** The & of two words, bit by bit. */
  function BitAnd(a: nat, b: nat): nat
  {
    if a == 0 || b == 0 then 0 else 2 * BitAnd(a / 2, b / 2) + (a % 2) * (b % 2)
  }

  function TwoTo(k: nat): nat
  {
    if k == 0 then 1 else 2 * TwoTo(k - 1)
  }

  lemma {:induction false} AndWithOnes(x: nat, k: nat)
    requires x < TwoTo(k)
    ensures BitAnd(x, TwoTo(k) - 1) == x
  {
    if x == 0 {
    } else {
      assert k > 0 && TwoTo(k) - 1 == 2 * (TwoTo(k - 1) - 1) + 1;
      AndWithOnes(x / 2, k - 1);
    }
  }

  lemma AndWithEven(x: nat, b: nat)
    ensures BitAnd(x, 2 * b) == 2 * BitAnd(x / 2, b)
  {
    if x > 0 && b > 0 {
      assert (2 * b) / 2 == b && (2 * b) % 2 == 0;
    }
  }

  lemma TwoTo61()
    ensures TwoTo(61) == 0x2000_0000_0000_0000
  {
    assert TwoTo(10) == 0x400;
    TwoToSum(10, 10);
    TwoToSum(20, 20);
    TwoToSum(40, 20);
    TwoToSum(60, 1);
  }

  /** Masking n + 7 with -8, that is 2^64 - 8, is aligning, for every word n for which n + 7 does not wrap. */
  lemma AlignUpTo8IsMask(n: nat)
    requires n + 7 <= SIZE_MAX
    ensures BitAnd(n + 7, SIZE_MAX - 7) == AlignUpTo8(n)
  {
    var x, ones := n + 7, TwoTo(61) - 1;
    TwoTo61();
    hide BitAnd, TwoTo;
    assert SIZE_MAX - 7 == 2 * (2 * (2 * ones));
    AndWithEven(x, 2 * (2 * ones));
    AndWithEven(x / 2, 2 * ones);
    AndWithEven(x / 2 / 2, ones);
    AndWithOnes(x / 2 / 2 / 2, 61);
    assert x / 2 / 2 / 2 == x / 8;
  }

  lemma {:induction false} TwoToSum(j: nat, k: nat)
    ensures TwoTo(j + k) == TwoTo(j) * TwoTo(k)
  {
    if j == 0 {
    } else {
      TwoToSum(j - 1, k);
      MulAssociative(2, TwoTo(j - 1), TwoTo(k));
    }
  }

  /** kBlockHeaderSize, kSerialArenaSize, sizeof(CleanupChunk), which ends in one node, and sizeof(CleanupNode). */
  datatype Layout = Layout(header: nat, serial: nat, chunk: nat, node: nat)
  {
    ghost predicate Valid()
    {
      && header > 0 && header % 8 == 0 && serial > 0 && serial % 8 == 0 && chunk > 0 && node <= chunk
      && header + serial <= SIZE_MAX && header + ChunkBytes(this, MAX_CLEANUP_ELEMENTS) <= SIZE_MAX
    }
  }

  /** The bytes of a chunk with room for `elements` nodes, one of which sizeof(CleanupChunk) counts already. */
  function ChunkBytes(layout: Layout, elements: nat): nat
    requires elements > 0
  {
    AlignUpTo8(layout.chunk + layout.node * (elements - 1))
  }

  /** A range of `len` bytes has room for a chunk of that many nodes, and wastes less than the alignment. */
  predicate HasRoom(layout: Layout, len: nat, elements: nat)
  {
    elements > 0 && layout.chunk + layout.node * (elements - 1) <= len < layout.chunk + layout.node * (elements - 1) + 8
  }

  lemma ChunkBytesHaveRoom(layout: Layout, elements: nat)
    requires elements > 0
    ensures HasRoom(layout, ChunkBytes(layout, elements), elements)
  {
  }

  datatype Options = Options(layout: Layout, startBlockSize: nat, maxBlockSize: nat)

  /** The size of the next block: double the last one up to a limit, and large enough in any case. */
  function NextBlockSize(options: Options, last: Option<nat>, minBytes: nat): nat
  {
    Max(if last.Some? then Min(2 * last.value, options.maxBlockSize) else options.startBlockSize,
      options.layout.header + minBytes)
  }

  class Block {
    const next: Block?
    const size: nat
    var pos: nat

    constructor (size: nat, next: Block?, header: nat)
      ensures this.size == size && this.next == next && pos == header
    {
      this.size, this.next, pos := size, next, header;
    }
  }

  /** A pointer, into a block or to anything else. */
  datatype Pointer = InBlock(block: Block, offset: nat) | Foreign(id: int)

  /** An element and the function, by name, that cleans it up. */
  datatype CleanupNode = CleanupNode(elem: Pointer, cleanup: int)

  class CleanupChunk {
    const next: CleanupChunk?
    const size: nat
    const nodes: array<CleanupNode>

    /** What the nodes hold before they are set does not matter; here it is `filler`. */
    constructor (size: nat, next: CleanupChunk?, filler: CleanupNode)
      ensures this.size == size == nodes.Length && this.next == next && fresh(nodes)
    {
      this.size, this.next := size, next;
      nodes := new CleanupNode[size](_ => filler);
    }
  }

  /** What a range of memory was handed out for. */
  datatype Use = Request | Chunk(chunk: CleanupChunk)

  /** A range handed out from the block with the given index. */
  datatype Region = Region(block: nat, start: nat, len: nat, use: Use)

  /** Where the memory for handing out begins: after the header, and in the first block after the SerialArena. */
  function Bottom(layout: Layout, i: nat): nat
  {
    if i == 0 then layout.header + layout.serial else layout.header
  }

  ghost predicate Chain(blocks: seq<Block>)
  {
    && blocks != []
    && blocks[0].next == null
    && (forall i | 0 < i < |blocks| :: blocks[i].next == blocks[i - 1])
    && (forall i, j | 0 <= i < j < |blocks| :: blocks[i] != blocks[j])
  }

  lemma ChainSnoc(blocks: seq<Block>, b: Block)
    requires Chain(blocks) && b.next == blocks[|blocks| - 1] && b !in blocks
    ensures Chain(blocks + [b])
  {
  }

  /**
   * `used[i]` is the fill position of block i. A block is left only for a request larger than its free space, and
   * that request lands in the next block; `owed` is a request for which this is about to happen.
   */
  ghost predicate Packed(layout: Layout, blocks: seq<Block>, used: seq<nat>, owed: nat)
  {
    && |blocks| == |used| > 0
    && (forall i | 0 <= i < |used| :: Bottom(layout, i) <= used[i] <= blocks[i].size && used[i] % 8 == 0)
    && (forall i | 0 < i < |used| ::
          blocks[i - 1].size - used[i - 1] < used[i] - layout.header + if i == |used| - 1 then owed else 0)
  }

  /** The regions are aligned, inside their blocks and one after another in each, clear of header and SerialArena. */
  ghost predicate Placed(layout: Layout, used: seq<nat>, regions: seq<Region>)
  {
    && (forall k | 0 <= k < |regions| ::
          regions[k].block < |used| && regions[k].start % 8 == 0 && Bottom(layout, regions[k].block) <= regions[k].start
          && regions[k].start + regions[k].len <= used[regions[k].block])
    && (forall j, k | 0 <= j < k < |regions| && regions[j].block == regions[k].block ::
          regions[j].start + regions[j].len <= regions[k].start)
  }

  /** Bytes handed out of the blocks, by their fill positions. */
  function HandedOut(layout: Layout, used: seq<nat>): int
  {
    if used == [] then 0
    else HandedOut(layout, used[..|used| - 1]) + used[|used| - 1] - Bottom(layout, |used| - 1)
  }

  function Total(regions: seq<Region>): nat
  {
    if regions == [] then 0 else Total(regions[..|regions| - 1]) + regions[|regions| - 1].len
  }

  function SumSizes(blocks: seq<Block>): nat
  {
    if blocks == [] then 0 else SumSizes(blocks[..|blocks| - 1]) + blocks[|blocks| - 1].size
  }

  /** Room for requests in the blocks no longer being filled. */
  function AbandonedRoom(layout: Layout, blocks: seq<Block>, k: nat): int
    requires k <= |blocks|
  {
    if k == 0 then 0 else AbandonedRoom(layout, blocks, k - 1) + blocks[k - 1].size - Bottom(layout, k - 1)
  }

  /** That is the sizes of these blocks less a header for each and the SerialArena in the first. */
  lemma {:induction false} AbandonedRoomIs(layout: Layout, blocks: seq<Block>, k: nat)
    requires k <= |blocks|
    ensures AbandonedRoom(layout, blocks, k)
         == SumSizes(blocks[..k]) - layout.header * k - (if k == 0 then 0 else layout.serial)
  {
    if k == 0 {
    } else {
      AbandonedRoomIs(layout, blocks, k - 1);
      assert blocks[..k][..k - 1] == blocks[..k - 1];
      assert layout.header * k == layout.header * (k - 1) + layout.header;
    }
  }

  /** Hand out `n` bytes of the last block. */
  function Bump(used: seq<nat>, n: nat): seq<nat>
    requires used != []
  {
    used[..|used| - 1] + [used[|used| - 1] + n]
  }

  lemma BumpKeeps(layout: Layout, blocks: seq<Block>, used: seq<nat>, regions: seq<Region>, n: nat, use: Use, owed: nat)
    requires Packed(layout, blocks, used, owed) && Placed(layout, used, regions)
    requires n % 8 == 0 && used[|used| - 1] + n <= blocks[|used| - 1].size && (owed == 0 || owed == n)
    ensures Packed(layout, blocks, Bump(used, n), 0)
    ensures Placed(layout, Bump(used, n), regions + [Region(|used| - 1, used[|used| - 1], n, use)])
  {
    BumpPacked(layout, blocks, used, n, owed);
    BumpPlaced(layout, blocks, used, regions, Region(|used| - 1, used[|used| - 1], n, use), owed);
  }

  lemma BumpPacked(layout: Layout, blocks: seq<Block>, used: seq<nat>, n: nat, owed: nat)
    requires Packed(layout, blocks, used, owed) && n % 8 == 0
    requires used[|used| - 1] + n <= blocks[|used| - 1].size && (owed == 0 || owed == n)
    ensures Packed(layout, blocks, Bump(used, n), 0)
  {
  }

  lemma BumpPlaced(layout: Layout, blocks: seq<Block>, used: seq<nat>, regions: seq<Region>, r: Region, owed: nat)
    requires Packed(layout, blocks, used, owed) && Placed(layout, used, regions)
    requires r.block == |used| - 1 && r.start == used[|used| - 1]
    ensures Placed(layout, Bump(used, r.len), regions + [r])
  {
    assert Bottom(layout, |used| - 1) <= used[|used| - 1] && used[|used| - 1] % 8 == 0;
    hide Packed, Bottom;
    assert forall i | 0 <= i < |used| :: used[i] <= Bump(used, r.len)[i];
  }

  lemma BumpTotals(layout: Layout, used: seq<nat>, regions: seq<Region>, r: Region)
    requires used != []
    ensures HandedOut(layout, Bump(used, r.len)) == HandedOut(layout, used) + r.len
    ensures Total(regions + [r]) == Total(regions) + r.len
  {
    assert Bump(used, r.len)[..|used| - 1] == used[..|used| - 1];
    assert (regions + [r])[..|regions|] == regions;
  }

  /** A new block for a request that the last one has no room for. */
  lemma NewBlockKeeps(layout: Layout, blocks: seq<Block>, used: seq<nat>, regions: seq<Region>, b: Block, n: nat)
    requires layout.Valid() && Packed(layout, blocks, used, 0) && Placed(layout, used, regions)
    requires blocks[|used| - 1].size - used[|used| - 1] < n && b.size >= layout.header
    ensures Packed(layout, blocks + [b], used + [layout.header], n)
    ensures Placed(layout, used + [layout.header], regions)
    ensures HandedOut(layout, used + [layout.header]) == HandedOut(layout, used)
    ensures SumSizes(blocks + [b]) == SumSizes(blocks) + b.size
  {
    var h: nat := layout.header;
    NewBlockPacked(layout, blocks, used, b, n);
    assert (used + [h])[..|used|] == used;
    assert (blocks + [b])[..|blocks|] == blocks;
    assert Bottom(layout, |used|) == h;
    hide Packed, Bottom;
  }

  lemma NewBlockPacked(layout: Layout, blocks: seq<Block>, used: seq<nat>, b: Block, n: nat)
    requires layout.Valid() && Packed(layout, blocks, used, 0)
    requires blocks[|used| - 1].size - used[|used| - 1] < n && b.size >= layout.header
    ensures Packed(layout, blocks + [b], used + [layout.header], n)
  {
  }

  /** The waste bound: the room in all the blocks left behind is at most twice what was handed out. */
  lemma WasteBound(layout: Layout, blocks: seq<Block>, used: seq<nat>)
    requires Packed(layout, blocks, used, 0)
    ensures AbandonedRoom(layout, blocks, |blocks| - 1) <= 2 * HandedOut(layout, used)
  {
    WasteBoundAt(layout, blocks, used, |blocks| - 1);
    assert used[..|used|] == used;
    assert used[..|used|][..|used| - 1] == used[..|used| - 1];
  }

  lemma {:induction false} WasteBoundAt(layout: Layout, blocks: seq<Block>, used: seq<nat>, k: nat)
    requires Packed(layout, blocks, used, 0) && k < |blocks|
    ensures HandedOut(layout, used[..k]) >= 0
    ensures AbandonedRoom(layout, blocks, k) <= 2 * HandedOut(layout, used[..k]) + used[k] - Bottom(layout, k)
  {
    if k == 0 {
    } else {
      WasteBoundAt(layout, blocks, used, k - 1);
      assert used[..k][..k - 1] == used[..k - 1];
    }
  }

  /** Fill positions never pass the ends of the blocks, so the headers and the SerialArena are not counted twice. */
  lemma {:induction false} HandedOutFits(layout: Layout, blocks: seq<Block>, used: seq<nat>)
    requires |blocks| == |used| && forall i | 0 <= i < |used| :: Bottom(layout, i) <= used[i] <= blocks[i].size
    ensures 0 <= HandedOut(layout, used)
    ensures HandedOut(layout, used) + layout.header * |blocks| + (if blocks == [] then 0 else layout.serial)
         <= SumSizes(blocks)
  {
    if used == [] {
    } else {
      HandedOutFits(layout, blocks[..|blocks| - 1], used[..|used| - 1]);
    }
  }

  /** The n-th chunk holds 8, 16, 32, 64, 64, ... cleanups. */
  function ChunkSize(k: nat): (r: nat)
    ensures r == match k case 0 => 8 case 1 => 16 case 2 => 32 case _ => 64
  {
    if k == 0 then MIN_CLEANUP_ELEMENTS else Min(2 * ChunkSize(k - 1), MAX_CLEANUP_ELEMENTS)
  }

  /** How many cleanups fit in the first k chunks. */
  function ChunkStart(k: nat): nat
  {
    if k == 0 then 0 else ChunkStart(k - 1) + ChunkSize(k - 1)
  }

  lemma {:induction false} ChunkStartGrows(j: nat, k: nat)
    requires j < k
    ensures ChunkStart(j) + ChunkSize(j) <= ChunkStart(k)
  {
    if j < k - 1 {
      ChunkStartGrows(j, k - 1);
    }
  }

  /** The chunks among the regions. */
  function ChunksIn(regions: seq<Region>): seq<CleanupChunk>
  {
    if regions == [] then []
    else
      var r := regions[|regions| - 1];
      ChunksIn(regions[..|regions| - 1]) + if r.use.Chunk? then [r.use.chunk] else []
  }

  /** The chunks of a cleanup list, oldest first, are those among the regions, each of its own size. */
  ghost predicate ChunksPlaced(layout: Layout, regions: seq<Region>, chunks: seq<CleanupChunk>)
  {
    && ChunksIn(regions) == chunks
    && (forall k | 0 <= k < |regions| && regions[k].use.Chunk? ::
          regions[k].use.chunk.size > 0 && regions[k].len == ChunkBytes(layout, regions[k].use.chunk.size))
  }

  lemma ChunksPlacedSnoc(layout: Layout, regions: seq<Region>, chunks: seq<CleanupChunk>, r: Region)
    requires ChunksPlaced(layout, regions, chunks)
    requires r.use.Chunk? ==> r.use.chunk.size > 0 && r.len == ChunkBytes(layout, r.use.chunk.size)
    ensures ChunksPlaced(layout, regions + [r], if r.use.Chunk? then chunks + [r.use.chunk] else chunks)
  {
    ChunksInSnoc(regions, r);
  }

  lemma ChunksInSnoc(regions: seq<Region>, r: Region)
    ensures ChunksIn(regions + [r]) == ChunksIn(regions) + if r.use.Chunk? then [r.use.chunk] else []
  {
    assert (regions + [r])[..|regions|] == regions;
  }

  /** Bytes asked for by callers. */
  function Requested(regions: seq<Region>): nat
  {
    if regions == [] then 0
    else
      var r := regions[|regions| - 1];
      Requested(regions[..|regions| - 1]) + if r.use.Request? then r.len else 0
  }

  lemma RequestedSnoc(regions: seq<Region>, r: Region)
    ensures Requested(regions + [r]) == Requested(regions) + if r.use.Request? then r.len else 0
  {
    assert (regions + [r])[..|regions|] == regions;
  }

  /** Bytes of the first k cleanup chunks. */
  function AllChunkBytes(layout: Layout, k: nat): nat
  {
    if k == 0 then 0 else AllChunkBytes(layout, k - 1) + ChunkBytes(layout, ChunkSize(k - 1))
  }

  /** Every byte handed out was asked for by a caller or belongs to a cleanup chunk. */
  lemma {:induction false} TotalIsRequestedPlusChunks(layout: Layout, regions: seq<Region>)
    requires ChunksPlaced(layout, regions, ChunksIn(regions))
    requires forall i | 0 <= i < |ChunksIn(regions)| :: ChunksIn(regions)[i].size == ChunkSize(i)
    ensures Total(regions) == Requested(regions) + AllChunkBytes(layout, |ChunksIn(regions)|)
  {
    hide ChunkSize, ChunkBytes;
    if regions == [] {
    } else {
      var front, r := regions[..|regions| - 1], regions[|regions| - 1];
      assert forall i | 0 <= i < |ChunksIn(front)| :: ChunksIn(regions)[i] == ChunksIn(front)[i];
      TotalIsRequestedPlusChunks(layout, front);
      if r.use.Chunk? {
        assert ChunksIn(regions)[|ChunksIn(front)|] == r.use.chunk;
      }
    }
  }

  /** The blocks that are given back, newest first, each with its size. */
  function Deallocated(blocks: seq<Block>, initialBlock: Block?): seq<(Block, nat)>
  {
    if blocks == [] then []
    else
      var b := blocks[|blocks| - 1];
      (if b == initialBlock then [] else [(b, b.size)]) + Deallocated(blocks[..|blocks| - 1], initialBlock)
  }

  function Reversed<T>(s: seq<T>): seq<T>
  {
    if s == [] then [] else Reversed(s[1..]) + [s[0]]
  }

  lemma {:induction false} ReversedIs<T>(s: seq<T>)
    ensures |Reversed(s)| == |s| && forall k | 0 <= k < |s| :: Reversed(s)[k] == s[|s| - 1 - k]
  {
    if s == [] {
    } else {
      ReversedIs(s[1..]);
    }
  }

  lemma {:induction false} DeallocatedAre(blocks: seq<Block>, initialBlock: Block?)
    ensures forall e | e in Deallocated(blocks, initialBlock) :: e.0 in blocks
  {
    if blocks == [] {
    } else {
      DeallocatedAre(blocks[..|blocks| - 1], initialBlock);
    }
  }

  /** Of two blocks that are given back, the one that was allocated later goes first. */
  lemma {:induction false} NewestGoesFirst(blocks: seq<Block>, initialBlock: Block?, p: nat, q: nat, i: nat, j: nat)
    requires forall a, b | 0 <= a < b < |blocks| :: blocks[a] != blocks[b]
    requires i < j < |Deallocated(blocks, initialBlock)| && p < |blocks| && q < |blocks|
    requires Deallocated(blocks, initialBlock)[i].0 == blocks[p] && Deallocated(blocks, initialBlock)[j].0 == blocks[q]
    ensures p > q
  {
    var n := |blocks| - 1;
    var front := Deallocated(blocks[..n], initialBlock);
    var last := if blocks[n] == initialBlock then [] else [(blocks[n], blocks[n].size)];
    assert Deallocated(blocks, initialBlock) == last + front;
    hide Deallocated;
    assert (last + front)[j] == front[j - |last|];
    EarlierThanLast(blocks, initialBlock, j - |last|, q);
    if p < n {
      assert i >= |last|;
      assert (last + front)[i] == front[i - |last|];
      NewestGoesFirst(blocks[..n], initialBlock, p, q, i - |last|, j - |last|);
    }
  }

  lemma EarlierThanLast(blocks: seq<Block>, initialBlock: Block?, j: nat, q: nat)
    requires forall a, b | 0 <= a < b < |blocks| :: blocks[a] != blocks[b]
    requires blocks != [] && j < |Deallocated(blocks[..|blocks| - 1], initialBlock)| && q < |blocks|
    requires Deallocated(blocks[..|blocks| - 1], initialBlock)[j].0 == blocks[q]
    ensures q < |blocks| - 1
  {
    var front := Deallocated(blocks[..|blocks| - 1], initialBlock);
    DeallocatedAre(blocks[..|blocks| - 1], initialBlock);
    assert front[j] in front;
  }
}
