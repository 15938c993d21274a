/** ArenaImpl as one thread at a time sees it: a list of SerialArenas, one per thread, over one counter. */
module Arenas {
  import opened Prelude
  import opened ArenaBlocks
  import opened SerialArenas

  /** What destruction and Reset do to the outside: a cleanup called, or a block given to block_dealloc. */
  datatype Event = Ran(node: CleanupNode) | Freed(block: Block, size: nat)

  function RanAll(nodes: seq<CleanupNode>): seq<Event>
  {
    if nodes == [] then [] else [Ran(nodes[0])] + RanAll(nodes[1..])
  }

  function FreedAll(blocks: seq<(Block, nat)>): seq<Event>
  {
    if blocks == [] then [] else [Freed(blocks[0].0, blocks[0].1)] + FreedAll(blocks[1..])
  }

  function Sum(s: seq<nat>): nat
  {
    if s == [] then 0 else Sum(s[..|s| - 1]) + s[|s| - 1]
  }

  lemma {:induction false} SumUpdate(s: seq<nat>, k: nat, v: nat)
    requires k < |s|
    ensures Sum(s[k := v]) == Sum(s) - s[k] + v
  {
    var t := s[k := v];
    if k < |s| - 1 {
      SumUpdate(s[..|s| - 1], k, v);
      assert t[..|t| - 1] == s[..|s| - 1][k := v];
    } else {
      assert t[..|t| - 1] == s[..|s| - 1];
    }
  }

  lemma SumSnoc(s: seq<nat>, v: nat)
    ensures Sum(s + [v]) == Sum(s) + v
  {
    assert (s + [v])[..|s|] == s;
  }

  /** The cleanups of all threads in the order in which they run. */
  ghost function AllCleanups(serials: seq<SerialArena>): seq<Event>
    reads serials
  {
    if serials == [] then []
    else RanAll(Reversed(serials[|serials| - 1].registered)) + AllCleanups(serials[..|serials| - 1])
  }

  /** The blocks of all threads that are given back, in order. */
  ghost function AllFreed(serials: seq<SerialArena>, initialBlock: Block?): seq<(Block, nat)>
    reads serials
  {
    if serials == [] then []
    else Deallocated(serials[|serials| - 1].blocks, initialBlock) + AllFreed(serials[..|serials| - 1], initialBlock)
  }

  ghost function AllHandedOut(serials: seq<SerialArena>): nat
    reads serials
  {
    if serials == [] then 0
    else AllHandedOut(serials[..|serials| - 1]) + Total(serials[|serials| - 1].regions)
  }

  /** A header for every block, and one SerialArena per thread. */
  ghost function Overhead(layout: Layout, serials: seq<SerialArena>): nat
    reads serials
  {
    if serials == [] then 0
    else
      Overhead(layout, serials[..|serials| - 1]) + layout.header * |serials[|serials| - 1].blocks| + layout.serial
  }

  lemma OneBlock(b: Block)
    ensures SumSizes([b]) == b.size && Sum([b.size]) == b.size
  {
    assert [b][..0] == [] && [b.size][..0] == [];
  }

  lemma NoSpaces(s: seq<nat>)
    ensures Sum(s[..0]) == 0
  {
  }

  lemma SumStep(s: seq<nat>, k: nat)
    requires 0 < k <= |s|
    ensures Sum(s[..k]) == Sum(s[..k - 1]) + s[k - 1]
  {
    assert s[..k][..k - 1] == s[..k - 1];
  }

  class ArenaImpl {
    const source: BlockSource
    const initialBlock: Block?
    var threads: SerialArena?
    ghost var serials: seq<SerialArena>
    ghost var spaces: seq<nat>
    ghost var Repr: set<object>

    ghost predicate Linked()
      reads this, serials`next
    {
      && threads == (if serials == [] then null else serials[|serials| - 1])
      && (serials != [] ==> serials[0].next == null)
      && (forall k | 0 < k < |serials| :: serials[k].next == serials[k - 1])
    }

    /** No two threads share anything, and each has one SerialArena. */
    ghost predicate Separate()
      reads serials`blocks, serials`chunks, `serials
    {
      forall j, k | 0 <= j < k < |serials| ::
        serials[j] != serials[k] && serials[j].Repr() !! serials[k].Repr() && serials[j].owner != serials[k].owner
    }

    ghost predicate Inside(s: SerialArena)
      reads `Repr, s`blocks, s`chunks
    {
      s.Repr() <= Repr && this !in s.Repr() && source !in s.Repr()
    }

    /** The counter is the sum of the sizes of all blocks; the initial block is the first block of the first thread. */
    ghost predicate Counted(size: nat := 0)
      reads this, source, serials`blocks
    {
      && |spaces| == |serials| && source.spaceAllocated == Sum(spaces) + size
      && (forall k | 0 <= k < |serials| :: spaces[k] == SumSizes(serials[k].blocks))
      && (initialBlock != null ==> serials != [] && serials[0].blocks != [] && serials[0].blocks[0] == initialBlock)
    }

    ghost predicate Valid()
      reads this, Repr
    {
      && this in Repr && source in Repr && InitialBlockFits()
      && (forall k | 0 <= k < |serials| ::
            serials[k] in Repr && Inside(serials[k]) && serials[k].arena == source && serials[k].Valid())
      && Linked() && Separate() && Counted() && (initialBlock != null ==> initialBlock in Repr)
    }

    /** The initial block, when there is one, has room for a SerialArena. */
    ghost predicate InitialBlockFits()
    {
      && source.options.layout.Valid()
      && (initialBlock != null ==>
            && initialBlock.next == null
            && initialBlock.size >= source.options.layout.header + source.options.layout.serial)
    }

    constructor (options: Options, initialBlock: Block?, me: int)
      requires options.layout.Valid()
      requires initialBlock != null ==>
        initialBlock.next == null && initialBlock.size >= options.layout.header + options.layout.serial
      modifies initialBlock
      ensures Valid() && this.initialBlock == initialBlock && source.options == options
      ensures fresh(source) && fresh(Repr - {initialBlock})
      ensures source.spaceAllocated == if initialBlock == null then 0 else initialBlock.size
    {
      source := new BlockSource(options);
      this.initialBlock := initialBlock;
      threads, serials, spaces, Repr := null, [], [], {};
      new;
      Init(me);
    }

    /** Init: the calling thread owns the initial block. */
    method Init(me: int)
      requires InitialBlockFits()
      modifies this, source, initialBlock
      ensures Valid()
      ensures initialBlock == null ==> serials == []
      ensures initialBlock != null ==>
        && |serials| == 1 && serials[0].owner == me && fresh(serials[0])
        && serials[0].blocks == [initialBlock] && serials[0].regions == [] && serials[0].registered == []
      ensures fresh(Repr - {this, source, initialBlock})
      ensures source.spaceAllocated == if initialBlock == null then 0 else initialBlock.size
    {
      hide SerialArena.Valid, SerialArena.Repr, SumSizes, Sum;
      threads := null;
      serials, spaces := [], [];
      if initialBlock != null {
        initialBlock.pos := source.options.layout.header;
        var serial := new SerialArena(initialBlock, me, source);
        serial.next := null;
        threads := serial;
        source.spaceAllocated := initialBlock.size;
        serials, spaces := [serial], [initialBlock.size];
        Repr := {this, source} + serial.Repr();
        OneBlock(initialBlock);
      } else {
        source.spaceAllocated := 0;
        NoSpaces(spaces);
        assert spaces[..0] == spaces;
        Repr := {this, source};
      }
    }

    /** The arena of `me` in the list, or a new one pushed on it: GetSerialArenaFallback without other threads. */
    method GetSerialArena(me: int) returns (serial: SerialArena, ghost k: nat)
      requires Valid()
      modifies this, source
      ensures Valid() && k < |serials| && serials[k] == serial && serial.owner == me
      ensures serials == old(serials) || (serials == old(serials) + [serial] && fresh(serial.Repr()))
      ensures (exists i :: 0 <= i < |old(serials)| && old(serials)[i].owner == me) ==> serials == old(serials)
      ensures serials != old(serials) ==> serial.registered == [] && serial.regions == []
      ensures forall o | o in Repr :: o in old(Repr) || fresh(o)
    {
      hide SerialArena.Valid, SumSizes, Sum;
      var s := threads;
      k := |serials|;
      while s != null
        invariant k <= |serials| && s == (if k == 0 then null else serials[k - 1])
        invariant forall j | k <= j < |serials| :: serials[j].owner != me
        decreases k
      {
        if s.owner == me {
          k := k - 1;
          serial := s;
          return;
        }
        s := s.next;
        k := k - 1;
      }
      serial := NewSerialArena(me);
      k := |serials| - 1;
    }

    /** The first block of a thread, its SerialArena inside, and the push on the list. */
    method NewSerialArena(me: int) returns (serial: SerialArena)
      requires Valid() && forall k | 0 <= k < |serials| :: serials[k].owner != me
      modifies this, source
      ensures Valid() && serials == old(serials) + [serial] && serial.owner == me && fresh(serial.Repr())
      ensures serial.registered == [] && serial.regions == [] && Repr == old(Repr) + serial.Repr()
    {
      hide SerialArena.Valid, SerialArena.Repr, SumSizes, Sum, Separate;
      serial := FirstBlock(me);
      serial.SetNext(threads);
      threads := serial;
      Push(serial, SumSizes(serial.blocks));
    }

    method FirstBlock(me: int) returns (serial: SerialArena)
      requires Valid()
      modifies source
      ensures forall k | 0 <= k < |serials| :: Inside(serials[k]) && serials[k].Valid()
      ensures Counted(SumSizes(serial.blocks))
      ensures serial.Valid() && fresh(serial) && fresh(serial.Repr()) && serial.arena == source && serial.owner == me
      ensures serial.registered == [] && serial.regions == []
    {
      hide SerialArena.Valid, SerialArena.Repr, SumSizes, Sum, Separate, Linked;
      var b := source.NewBlock(null, source.options.layout.serial);
      serial := new SerialArena(b, me, source);
      OneBlock(b);
    }

    ghost method Push(serial: SerialArena, size: nat)
      requires this in Repr && source in Repr && InitialBlockFits() && Separate() && Counted(size)
      requires forall k | 0 <= k < |serials| ::
        serials[k] in Repr && Inside(serials[k]) && serials[k].arena == source && serials[k].Valid()
      requires initialBlock != null ==> initialBlock in Repr
      requires serials != [] ==> serials[0].next == null
      requires forall k | 0 < k < |serials| :: serials[k].next == serials[k - 1]
      requires serial.Valid() && serial.Repr() !! Repr && serial.arena == source && SumSizes(serial.blocks) == size
      requires serial.next == (if serials == [] then null else serials[|serials| - 1]) && threads == serial
      requires forall k | 0 <= k < |serials| :: serials[k].owner != serial.owner
      modifies `serials, `spaces, `Repr
      ensures Valid() && serials == old(serials) + [serial] && Repr == old(Repr) + serial.Repr()
    {
      hide SerialArena.Valid, SerialArena.Repr, SumSizes, Sum;
      SumSnoc(spaces, size);
      serials, spaces := serials + [serial], spaces + [size];
      Repr := Repr + serial.Repr();
    }

    /** All of Valid, but for the counts and the footprint of the k-th SerialArena. */
    ghost predicate ValidBut(k: nat)
      requires k < |serials|
      reads this, Repr, serials[k], serials[k].Repr()
    {
      && this in Repr && source in Repr && InitialBlockFits()
      && (forall i | 0 <= i < |serials| ::
            serials[i] in Repr && this !in serials[i].Repr() && source !in serials[i].Repr()
            && serials[i].arena == source && (i == k || Inside(serials[i])) && serials[i].Valid())
      && Linked() && Separate()
      && |spaces| == |serials|
      && source.spaceAllocated == Sum(spaces) - spaces[k] + SumSizes(serials[k].blocks)
      && (forall i | 0 <= i < |serials| && i != k :: spaces[i] == SumSizes(serials[i].blocks))
      && (initialBlock != null ==>
            initialBlock in Repr && serials[0].blocks != [] && serials[0].blocks[0] == initialBlock)
    }

    ghost method Recount(k: nat)
      requires k < |serials| && ValidBut(k)
      modifies `spaces, `Repr
      ensures Valid() && Repr == old(Repr) + serials[k].Repr()
    {
      hide SerialArena.Valid, SerialArena.Repr, SumSizes, Sum;
      SumUpdate(spaces, k, SumSizes(serials[k].blocks));
      spaces := spaces[k := SumSizes(serials[k].blocks)];
      Repr := Repr + serials[k].Repr();
    }

    /** AllocateAligned, with the alignment and the overflow check as preconditions. */
    method AllocateAligned(n: nat, me: int)
      returns (block: Block, offset: nat, ghost serial: SerialArena, ghost r: nat)
      requires Valid() && n % 8 == 0 && n <= SIZE_MAX - source.options.layout.header
      modifies Repr
      ensures Valid() && serial in serials && serial.owner == me && block in serial.blocks
      ensures serials == if serial in old(serials) then old(serials) else old(serials) + [serial]
      ensures r == (if serial in old(serials) then |old(serial.regions)| else 0)
      ensures serial in old(serials) ==> old(serial.regions) <= serial.regions
      ensures serial.HandsOut(r, block, offset, n)
      ensures |serial.regions| == r + 1 && serial.regions[r].block == |serial.blocks| - 1
      ensures serial.registered == if serial in old(serials) then old(serial.registered) else []
      ensures serial in old(serials) ==> old(serial.blocks) <= serial.blocks
      ensures forall s | s in old(serials) && s != serial ::
        unchanged(s`regions) && unchanged(s`registered) && unchanged(s`blocks)
      ensures forall o | o in Repr :: o in old(Repr) || fresh(o)
    {
      hide SerialArena.Valid, SerialArena.Repr, SumSizes, Sum, Linked, Separate, Counted;
      var s, k := GetSerialArena(me);
      serial, r := s, |s.regions|;
      assert forall t | t in old(serials) :: t in serials;
      block, offset := AllocateFrom(s, n, k);
    }

    method AllocateFrom(serial: SerialArena, n: nat, ghost k: nat) returns (block: Block, offset: nat)
      requires Valid() && n % 8 == 0 && n <= SIZE_MAX - source.options.layout.header
      requires k < |serials| && serials[k] == serial
      modifies Repr
      ensures Valid() && serials == old(serials) && block in serial.blocks
      ensures |serial.blocks| > 0 && serial.HandsOut(|old(serial.regions)|, block, offset, n)
      ensures serial.regions == old(serial.regions) + [Region(|serial.blocks| - 1, offset, n, Request)]
      ensures serial.registered == old(serial.registered) && old(serial.blocks) <= serial.blocks
      ensures forall s | s in serials && s != serial ::
        unchanged(s`regions) && unchanged(s`registered) && unchanged(s`blocks)
      ensures forall o | o in Repr :: o in old(Repr) || fresh(o)
    {
      hide SerialArena.Valid, SerialArena.Repr, SumSizes, Sum, Linked, InitialBlockFits;
      serial.Footprint();
      block, offset := serial.AllocateAligned(n);
      Recount(k);
    }

    /** AddCleanup, in the calling thread's SerialArena. */
    method AddCleanup(elem: Pointer, fn: int, me: int) returns (ghost serial: SerialArena)
      requires Valid()
      modifies Repr
      ensures Valid() && serial in serials && serial.owner == me
      ensures serials == if serial in old(serials) then old(serials) else old(serials) + [serial]
      ensures serial.registered == (if serial in old(serials) then old(serial.registered) else [])
                                   + [CleanupNode(elem, fn)]
      ensures serial in old(serials) ==> old(serial.regions) <= serial.regions && old(serial.blocks) <= serial.blocks
      ensures forall s | s in old(serials) && s != serial ::
        unchanged(s`regions) && unchanged(s`registered) && unchanged(s`blocks)
      ensures forall o | o in Repr :: o in old(Repr) || fresh(o)
    {
      hide SerialArena.Valid, SerialArena.Repr, SumSizes, Sum, Linked, Separate, Counted;
      var s, k := GetSerialArena(me);
      serial := s;
      assert forall t | t in old(serials) :: t in serials;
      AddCleanupTo(s, elem, fn, k);
    }

    method AddCleanupTo(serial: SerialArena, elem: Pointer, fn: int, ghost k: nat)
      requires Valid() && k < |serials| && serials[k] == serial
      modifies Repr
      ensures Valid() && serials == old(serials)
      ensures serial.registered == old(serial.registered) + [CleanupNode(elem, fn)]
      ensures old(serial.regions) <= serial.regions && old(serial.blocks) <= serial.blocks
      ensures forall s | s in serials && s != serial ::
        unchanged(s`regions) && unchanged(s`registered) && unchanged(s`blocks)
      ensures forall o | o in Repr :: o in old(Repr) || fresh(o)
    {
      hide SerialArena.Valid, SerialArena.Repr, SumSizes, Sum, Linked, InitialBlockFits;
      serial.Footprint();
      serial.AddCleanup(elem, fn);
      Recount(k);
    }

    /** AllocateAlignedAndAddCleanup: both in the calling thread's SerialArena. */
    method AllocateAlignedAndAddCleanup(n: nat, fn: int, me: int)
      returns (block: Block, offset: nat, ghost serial: SerialArena, ghost r: nat)
      requires Valid() && n % 8 == 0 && n <= SIZE_MAX - source.options.layout.header
      modifies Repr
      ensures Valid() && serial in serials && serial.owner == me
      ensures serials == if serial in old(serials) then old(serials) else old(serials) + [serial]
      ensures r == (if serial in old(serials) then |old(serial.regions)| else 0)
      ensures serial.HandsOut(r, block, offset, n)
      ensures serial.registered == (if serial in old(serials) then old(serial.registered) else [])
                                   + [CleanupNode(InBlock(block, offset), fn)]
      ensures serial in old(serials) ==> old(serial.regions) <= serial.regions && old(serial.blocks) <= serial.blocks
      ensures forall s | s in old(serials) && s != serial ::
        unchanged(s`regions) && unchanged(s`registered) && unchanged(s`blocks)
      ensures forall o | o in Repr :: o in old(Repr) || fresh(o)
    {
      hide SerialArena.Valid, SerialArena.Repr, SumSizes, Sum, Linked, Separate, Counted, SerialArena.HandsOut;
      var s, k := GetSerialArena(me);
      serial, r := s, |s.regions|;
      assert forall t | t in old(serials) :: t in serials;
      block, offset := AllocateAndAddCleanupFrom(s, n, fn, k);
    }

    method AllocateAndAddCleanupFrom(serial: SerialArena, n: nat, fn: int, ghost k: nat)
      returns (block: Block, offset: nat)
      requires Valid() && n % 8 == 0 && n <= SIZE_MAX - source.options.layout.header
      requires k < |serials| && serials[k] == serial
      modifies Repr
      ensures Valid() && serials == old(serials)
      ensures serial.HandsOut(|old(serial.regions)|, block, offset, n)
      ensures serial.registered == old(serial.registered) + [CleanupNode(InBlock(block, offset), fn)]
      ensures old(serial.regions) <= serial.regions && old(serial.blocks) <= serial.blocks
      ensures forall s | s in serials && s != serial ::
        unchanged(s`regions) && unchanged(s`registered) && unchanged(s`blocks)
      ensures forall o | o in Repr :: o in old(Repr) || fresh(o)
    {
      hide SerialArena.Valid, SerialArena.Repr, SumSizes, Sum, Linked, InitialBlockFits, SerialArena.HandsOut;
      serial.Footprint();
      block, offset := serial.AllocateAlignedAndAddCleanup(n, fn);
      Recount(k);
    }

    function SpaceAllocated(): nat
      reads source
    {
      source.spaceAllocated
    }

    /** The sum over the threads. */
    method SpaceUsed() returns (space: int)
      requires Valid()
      ensures space == AllHandedOut(serials)
    {
      hide SerialArena.Valid, SerialArena.Repr, Separate, Counted, Total;
      var serial := threads;
      ghost var k := |serials|;
      space := 0;
      assert serials[..k] == serials;
      while serial != null
        invariant 0 <= k <= |serials| && serial == (if k == 0 then null else serials[k - 1])
        invariant space + AllHandedOut(serials[..k]) == AllHandedOut(serials)
        decreases k
      {
        assert serials[..k][..k - 1] == serials[..k - 1];
        var used := serial.SpaceUsed();
        space := space + used;
        serial := serial.next;
        k := k - 1;
      }
    }

    /** Runs the cleanups of every thread. */
    method CleanupList(log: seq<Event>) returns (r: seq<Event>)
      requires Valid()
      ensures r == log + AllCleanups(serials)
    {
      hide SerialArena.Valid, SerialArena.Repr, Separate, Counted, AllCleanups;
      var serial := threads;
      ghost var k := |serials|;
      r := log;
      assert serials[..k] == serials;
      while serial != null
        invariant 0 <= k <= |serials| && serial == (if k == 0 then null else serials[k - 1])
        invariant r + AllCleanups(serials[..k]) == log + AllCleanups(serials)
        decreases k
      {
        CleanupStep(serials, k, r);
        var ran := serial.CleanupList();
        r := r + RanAll(ran);
        serial := serial.next;
        k := k - 1;
      }
      NoCleanups(serials, r);
    }

    /** Gives back the blocks of every thread, and returns the sum of the sizes of all blocks. */
    method FreeBlocks(log: seq<Event>) returns (space: nat, r: seq<Event>)
      requires Valid()
      ensures space == source.spaceAllocated
      ensures r == log + FreedAll(AllFreed(serials, initialBlock))
    {
      hide SerialArena.Valid, SerialArena.Repr, Separate, SumSizes, Deallocated, FreedAll, AllFreed, Sum;
      var serial := threads;
      ghost var k := |serials|;
      space, r := 0, log;
      assert serials[..k] == serials && spaces[..k] == spaces;
      while serial != null
        invariant 0 <= k <= |serials| && serial == (if k == 0 then null else serials[k - 1])
        invariant space + Sum(spaces[..k]) == Sum(spaces)
        invariant r + FreedAll(AllFreed(serials[..k], initialBlock)) == log + FreedAll(AllFreed(serials, initialBlock))
        decreases k
      {
        FreeStep(serials, initialBlock, k, r);
        SumStep(spaces, k);
        var next := serial.next;
        var n, freed := serial.Free(initialBlock);
        space := space + n;
        r := r + FreedAll(freed);
        serial := next;
        k := k - 1;
      }
      NothingFreed(serials, initialBlock, r);
      NoSpaces(spaces);
    }

    /** Every block but the initial one is given back exactly once, with its own size. */
    lemma EachBlockFreedOnce()
      requires Valid()
      ensures var freed := AllFreed(serials, initialBlock);
        && (forall i, j | 0 <= i < j < |freed| :: freed[i].0 != freed[j].0)
        && (forall s, b | s in serials && b in s.blocks && b != initialBlock :: (b, b.size) in freed)
        && (forall e | e in freed ::
              e.0 != initialBlock && e.1 == e.0.size && exists s :: s in serials && e.0 in s.blocks)
    {
      hide Deallocated, Linked, Counted, InitialBlockFits;
      assert DisjointBlocks(serials) by {
        forall j, k | 0 <= j < k < |serials|
          ensures forall b | b in serials[j].blocks :: b !in serials[k].blocks
        {
          BlocksInRepr(serials[j]);
          BlocksInRepr(serials[k]);
        }
      }
      FreedOnce(serials, initialBlock);
    }

    lemma RangeIsLive(s: SerialArena, k: nat)
      requires Valid() && s in serials && k < |s.regions|
      ensures s.InLiveMemory(s.regions[k])
    {
      hide SerialArena.Valid, Linked, Separate, Counted, InitialBlockFits, SerialArena.InLiveMemory;
      s.RangeIsLive(k);
    }

    lemma SerialsDiffer(j: nat, k: nat)
      requires Valid() && j < |serials| && k < |serials| && j != k
      ensures serials[j] != serials[k]
    {
      hide SerialArena.Valid, Linked, Counted, InitialBlockFits;
    }

    /** Two different ranges of any two threads are apart, and clear of headers and SerialArenas. */
    lemma RangesAreApart(s: SerialArena, j: nat, t: SerialArena, k: nat)
      requires Valid() && s in serials && t in serials && (s != t || j != k)
      requires j < |s.regions| && k < |t.regions|
      ensures s.InLiveMemory(s.regions[j]) && t.InLiveMemory(t.regions[k])
      ensures var a, b := s.regions[j], t.regions[k];
        s.blocks[a.block] != t.blocks[b.block] || a.start + a.len <= b.start || b.start + b.len <= a.start
    {
      hide SerialArena.Valid, Linked, Counted, InitialBlockFits, SerialArena.InLiveMemory;
      s.RangeIsLive(j);
      t.RangeIsLive(k);
      if s == t {
        s.RangesAreApart(if j < k then j else k, if j < k then k else j);
      } else {
        BlocksInRepr(s);
        BlocksInRepr(t);
        s.LiveBlock(s.regions[j]);
        t.LiveBlock(t.regions[k]);
      }
    }

    /** What was handed out, a header per block and a SerialArena per thread fit in what was allocated. */
    lemma SpaceIsConserved()
      requires Valid()
      ensures AllHandedOut(serials) + Overhead(source.options.layout, serials) <= SpaceAllocated()
    {
      hide SerialArena.Valid, SerialArena.Repr, Separate, InitialBlockFits, Linked;
      SpaceConservedTo(source.options.layout, serials, spaces);
    }

    /**
     * Reset: first every cleanup runs, then every block but the initial one is given back; the result is what was
     * allocated. The arena starts over.
     */
    method Reset(me: int) returns (space: nat, log: seq<Event>)
      requires Valid()
      modifies Repr
      ensures Valid() && space == old(source.spaceAllocated)
      ensures log == old(AllCleanups(serials)) + old(FreedAll(AllFreed(serials, initialBlock)))
      ensures initialBlock == null ==> serials == []
      ensures initialBlock != null ==>
        && |serials| == 1 && serials[0].owner == me && serials[0].blocks == [initialBlock]
        && serials[0].regions == [] && serials[0].registered == []
      ensures source.spaceAllocated == if initialBlock == null then 0 else initialBlock.size
      ensures forall o | o in Repr :: o in old(Repr) || fresh(o)
    {
      hide SerialArena.Valid, SerialArena.Repr, Separate, Linked, Counted, AllCleanups, AllFreed, FreedAll;
      log := CleanupList([]);
      space, log := FreeBlocks(log);
      Init(me);
    }
  }

  ghost predicate DisjointBlocks(serials: seq<SerialArena>)
    reads serials
  {
    && (forall s | s in serials :: forall i, j | 0 <= i < j < |s.blocks| :: s.blocks[i] != s.blocks[j])
    && (forall j, k | 0 <= j < k < |serials| :: forall b | b in serials[j].blocks :: b !in serials[k].blocks)
  }

  lemma BlocksInRepr(s: SerialArena)
    requires s.Valid()
    ensures forall b | b in s.blocks :: b in s.Repr()
    ensures forall i, j | 0 <= i < j < |s.blocks| :: s.blocks[i] != s.blocks[j]
  {
  }

  lemma {:induction false} DeallocatedOnce(blocks: seq<Block>, initialBlock: Block?)
    requires forall i, j | 0 <= i < j < |blocks| :: blocks[i] != blocks[j]
    ensures var freed := Deallocated(blocks, initialBlock);
      && (forall i, j | 0 <= i < j < |freed| :: freed[i].0 != freed[j].0)
      && (forall b | b in blocks && b != initialBlock :: (b, b.size) in freed)
      && (forall e | e in freed :: e.0 != initialBlock && e.1 == e.0.size && e.0 in blocks)
  {
    if blocks == [] {
    } else {
      var front := blocks[..|blocks| - 1];
      DeallocatedOnce(front, initialBlock);
      assert blocks == front + [blocks[|blocks| - 1]];
      assert forall i | 0 <= i < |Deallocated(front, initialBlock)| ::
          Deallocated(front, initialBlock)[i] in Deallocated(front, initialBlock);
    }
  }

  lemma {:induction false} FreedOnce(serials: seq<SerialArena>, initialBlock: Block?)
    requires DisjointBlocks(serials)
    ensures var freed := AllFreed(serials, initialBlock);
      && (forall i, j | 0 <= i < j < |freed| :: freed[i].0 != freed[j].0)
      && (forall s, b | s in serials && b in s.blocks && b != initialBlock :: (b, b.size) in freed)
      && (forall e | e in freed ::
            e.0 != initialBlock && e.1 == e.0.size && exists s :: s in serials && e.0 in s.blocks)
  {
    hide Deallocated;
    if serials == [] {
    } else {
      var front, last := serials[..|serials| - 1], serials[|serials| - 1];
      assert serials == front + [last];
      FreedOnce(front, initialBlock);
      DeallocatedOnce(last.blocks, initialBlock);
      var f, g := Deallocated(last.blocks, initialBlock), AllFreed(front, initialBlock);
      forall i, j | 0 <= i < |f| && 0 <= j < |g|
        ensures f[i].0 != g[j].0
      {
        assert f[i] in f && g[j] in g;
      }
    }
  }

  lemma {:induction false} SpaceConservedTo(layout: Layout, serials: seq<SerialArena>, spaces: seq<nat>)
    requires |spaces| == |serials|
    requires forall k | 0 <= k < |serials| ::
      serials[k].Valid() && serials[k].Sizes() == layout && spaces[k] == SumSizes(serials[k].blocks)
    ensures AllHandedOut(serials) + Overhead(layout, serials) <= Sum(spaces)
  {
    hide SerialArena.Valid, SumSizes, Total;
    if serials == [] {
    } else {
      serials[|serials| - 1].SpaceIsConserved();
      SpaceConservedTo(layout, serials[..|serials| - 1], spaces[..|serials| - 1]);
    }
  }

  /** The bytes handed out to all threads are the sum of those handed out to each. */
  lemma {:induction false} AllHandedOutIsSum(serials: seq<SerialArena>, totals: seq<nat>)
    requires |totals| == |serials| && forall k | 0 <= k < |serials| :: totals[k] == Total(serials[k].regions)
    ensures AllHandedOut(serials) == Sum(totals)
  {
    if serials == [] {
    } else {
      AllHandedOutIsSum(serials[..|serials| - 1], totals[..|totals| - 1]);
    }
  }

  lemma NoCleanups(serials: seq<SerialArena>, log: seq<Event>)
    ensures log + AllCleanups(serials[..0]) == log
  {
  }

  lemma CleanupStep(serials: seq<SerialArena>, k: nat, log: seq<Event>)
    requires 0 < k <= |serials|
    ensures log + AllCleanups(serials[..k])
         == log + RanAll(Reversed(serials[k - 1].registered)) + AllCleanups(serials[..k - 1])
  {
    assert serials[..k][..k - 1] == serials[..k - 1];
  }

  lemma NothingFreed(serials: seq<SerialArena>, initialBlock: Block?, log: seq<Event>)
    ensures log + FreedAll(AllFreed(serials[..0], initialBlock)) == log
  {
  }

  lemma FreeStep(serials: seq<SerialArena>, initialBlock: Block?, k: nat, log: seq<Event>)
    requires 0 < k <= |serials|
    ensures log + FreedAll(AllFreed(serials[..k], initialBlock))
         == log + FreedAll(Deallocated(serials[k - 1].blocks, initialBlock))
              + FreedAll(AllFreed(serials[..k - 1], initialBlock))
  {
    assert serials[..k][..k - 1] == serials[..k - 1];
    FreedAllConcat(Deallocated(serials[k - 1].blocks, initialBlock), AllFreed(serials[..k - 1], initialBlock));
  }

  lemma {:induction false} FreedAllConcat(a: seq<(Block, nat)>, b: seq<(Block, nat)>)
    ensures FreedAll(a + b) == FreedAll(a) + FreedAll(b)
  {
    if a == [] {
      assert a + b == b;
    } else {
      assert (a + b)[1..] == a[1..] + b;
      FreedAllConcat(a[1..], b);
    }
  }
}
