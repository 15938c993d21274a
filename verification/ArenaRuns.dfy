/** Any run of allocations, cleanup registrations and resets of any number of threads on one arena. */
module ArenaRuns {
  import opened Prelude
  import opened ArenaBlocks
  import opened SerialArenas
  import opened Arenas

  /** What a thread asks of the arena. */
  datatype Demand =
    | Allocate(thread: int, n: nat)
    | Register(thread: int, elem: Pointer, fn: int)
    | AllocateAndRegister(thread: int, n: nat, fn: int)
    | Reset(thread: int)

  /** A range of memory given to a thread. */
  datatype Range = Range(block: Block, offset: nat, len: nat)

  /** What it gets: nothing, memory, or what a Reset returns and does to the outside. */
  datatype Answer = Nothing | Memory(range: Range) | Wiped(space: nat, log: seq<Event>)

  ghost predicate Apart(a: Range, b: Range)
  {
    a.block != b.block || a.offset + a.len <= b.offset || b.offset + b.len <= a.offset
  }

  /** What the callers of an arena owe it: an aligned size that passes the overflow check. */
  predicate Fits(d: Demand, layout: Layout)
  {
    d.Register? || d.Reset? || (d.n % 8 == 0 && d.n <= SIZE_MAX - layout.header)
  }

  /** The answer to a demand for memory is that much memory. */
  predicate Answers(d: Demand, r: Answer)
  {
    match d
    case Register(_, _, _) => r.Nothing?
    case Reset(_) => r.Wiped?
    case _ => r.Memory? && r.range.len == d.n
  }

  /** There is no Reset among these demands. */
  predicate Quiet(demands: seq<Demand>, i: nat, j: nat)
    requires j <= |demands|
  {
    forall k | i <= k < j :: !demands[k].Reset?
  }

  /** The cleanup that a demand of thread t registers. */
  function CleanupOf(d: Demand, r: Answer, t: int): seq<CleanupNode>
  {
    if d.thread != t then []
    else
      match d
      case Register(_, elem, fn) => [CleanupNode(elem, fn)]
      case AllocateAndRegister(_, _, fn) =>
        if r.Memory? then [CleanupNode(InBlock(r.range.block, r.range.offset), fn)] else []
      case _ => []
  }

  /** What thread t has registered since the last Reset, or at all when there is none. */
  function CleanupsAfter(before: seq<CleanupNode>, demands: seq<Demand>, results: seq<Answer>, t: int)
    : seq<CleanupNode>
    requires |demands| == |results|
  {
    if demands == [] then before
    else
      var n := |demands| - 1;
      if demands[n].Reset? then []
      else CleanupsAfter(before, demands[..n], results[..n], t) + CleanupOf(demands[n], results[n], t)
  }

  lemma CleanupsAfterSnoc(before: seq<CleanupNode>, demands: seq<Demand>, results: seq<Answer>, i: nat, t: int)
    requires 0 < i <= |demands| == |results|
    ensures CleanupsAfter(before, demands[..i], results[..i], t)
         == if demands[i - 1].Reset? then []
            else
              CleanupsAfter(before, demands[..i - 1], results[..i - 1], t)
              + CleanupOf(demands[i - 1], results[i - 1], t)
  {
    assert demands[..i][..i - 1] == demands[..i - 1] && results[..i][..i - 1] == results[..i - 1];
  }

  /** What one SerialArena has handed out and registered. */
  datatype Part = Part(owner: int, blocks: seq<Block>, regions: seq<Region>, registered: seq<CleanupNode>)

  ghost function Parts(serials: seq<SerialArena>): (v: seq<Part>)
    reads serials
    ensures |v| == |serials|
    ensures forall k | 0 <= k < |v| ::
      v[k] == Part(serials[k].owner, serials[k].blocks, serials[k].regions, serials[k].registered)
  {
    if serials == [] then []
    else
      var s := serials[|serials| - 1];
      Parts(serials[..|serials| - 1]) + [Part(s.owner, s.blocks, s.regions, s.registered)]
  }

  ghost predicate OwnersDiffer(v: seq<Part>)
  {
    forall j, k | 0 <= j < k < |v| :: v[j].owner != v[k].owner
  }

  /** The range is that region, handed out to a caller. */
  ghost predicate Has(p: Part, place: nat, r: Range)
  {
    && place < |p.regions| && p.regions[place].block < |p.blocks| && p.blocks[p.regions[place].block] == r.block
    && p.regions[place].start == r.offset && p.regions[place].len == r.len && p.regions[place].use == Request
  }

  /** No range and no block is taken back. */
  ghost predicate Grows(p: Part, q: Part)
  {
    q.owner == p.owner && p.blocks <= q.blocks && p.regions <= q.regions
  }

  /** The k-th SerialArena, perhaps a new one, answers the demand of its thread; the others stay as they are. */
  ghost predicate Served(v: seq<Part>, w: seq<Part>, d: Demand, r: Answer, k: nat, place: nat)
  {
    && k <= |v| && |w| == (if k < |v| then |v| else |v| + 1) && w[k].owner == d.thread
    && (forall j | 0 <= j < |v| && j != k :: w[j] == v[j])
    && (k < |v| ==> Grows(v[k], w[k]) && place >= |v[k].regions|)
    && (r.Memory? ==> Has(w[k], place, r.range))
    && w[k].registered == (if k < |v| then v[k].registered else []) + CleanupOf(d, r, d.thread)
  }

  /** The calls of a CleanupList: SerialArena by SerialArena, each from the newest cleanup to the oldest. */
  function CleanupLog(v: seq<Part>): seq<Event>
  {
    if v == [] then [] else RanAll(Reversed(v[|v| - 1].registered)) + CleanupLog(v[..|v| - 1])
  }

  /** How many cleanups the first n threads have registered. */
  function CleanupsOfFirst(v: seq<Part>, n: nat): nat
    requires n <= |v|
  {
    if n == 0 then 0 else CleanupsOfFirst(v, n - 1) + |v[n - 1].registered|
  }

  lemma {:induction false} RanAllIs(nodes: seq<CleanupNode>)
    ensures |RanAll(nodes)| == |nodes| && forall i | 0 <= i < |nodes| :: RanAll(nodes)[i] == Ran(nodes[i])
  {
    if nodes == [] {
    } else {
      RanAllIs(nodes[1..]);
    }
  }

  lemma {:induction false} FreedAllIs(freed: seq<(Block, nat)>)
    ensures |FreedAll(freed)| == |freed|
    ensures forall i | 0 <= i < |freed| :: FreedAll(freed)[i] == Freed(freed[i].0, freed[i].1)
  {
    if freed == [] {
    } else {
      FreedAllIs(freed[1..]);
    }
  }

  /**
   * The log has one call for each cleanup: those of thread k in one piece, behind those of the threads after it, the
   * last registered first.
   */
  lemma {:induction false} CleanupLogIs(v: seq<Part>, k: nat, i: nat)
    requires k < |v| && i < |v[k].registered|
    ensures |CleanupLog(v)| == CleanupsOfFirst(v, |v|)
    ensures var place := CleanupsOfFirst(v, |v|) - CleanupsOfFirst(v, k + 1) + i;
      0 <= place < |CleanupLog(v)| && CleanupLog(v)[place] == Ran(v[k].registered[|v[k].registered| - 1 - i])
  {
    hide RanAll, Reversed, CleanupsOfFirst;
    var n := |v| - 1;
    var last := v[n].registered;
    CleanupLogLength(v);
    CleanupLogLength(v[..n]);
    OneMoreFirst(v, n);
    OneMoreFirst(v, k);
    FirstAreSame(v, n, n);
    ReversedIs(last);
    RanAllIs(Reversed(last));
    if k < n {
      CleanupLogIs(v[..n], k, i);
      FirstAreSame(v, n, k + 1);
    }
  }

  lemma OneMoreFirst(v: seq<Part>, k: nat)
    requires k < |v|
    ensures CleanupsOfFirst(v, k + 1) == CleanupsOfFirst(v, k) + |v[k].registered|
  {
  }

  lemma {:induction false} CleanupLogLength(v: seq<Part>)
    ensures |CleanupLog(v)| == CleanupsOfFirst(v, |v|)
  {
    if v == [] {
    } else {
      var n := |v| - 1;
      CleanupLogLength(v[..n]);
      FirstAreSame(v, n, n);
      ReversedIs(v[n].registered);
      RanAllIs(Reversed(v[n].registered));
    }
  }

  lemma {:induction false} FirstAreSame(v: seq<Part>, n: nat, k: nat)
    requires k <= n <= |v|
    ensures CleanupsOfFirst(v[..n], k) == CleanupsOfFirst(v, k) && CleanupsOfFirst(v, k) <= CleanupsOfFirst(v, n)
    decreases n + k
  {
    if k == 0 {
      if n > 0 {
        FirstAreSame(v, n - 1, 0);
      }
    } else {
      FirstAreSame(v, n, k - 1);
      if k < n {
        FirstAreSame(v, n - 1, k);
      }
    }
  }

  function FreedBlocks(v: seq<Part>, initial: Block?): seq<(Block, nat)>
  {
    if v == [] then [] else Deallocated(v[|v| - 1].blocks, initial) + FreedBlocks(v[..|v| - 1], initial)
  }

  /** Every block but the initial one is given back exactly once, with its own size. */
  ghost predicate OnceEach(freed: seq<(Block, nat)>, v: seq<Part>, initial: Block?)
  {
    && (forall i, j | 0 <= i < j < |freed| :: freed[i].0 != freed[j].0)
    && (forall k, b | 0 <= k < |v| && b in v[k].blocks && b != initial :: (b, b.size) in freed)
    && (forall e | e in freed ::
          e.0 != initial && e.1 == e.0.size && exists k :: 0 <= k < |v| && e.0 in v[k].blocks)
  }

  function Spaces(v: seq<Part>): nat
  {
    if v == [] then 0 else Spaces(v[..|v| - 1]) + SumSizes(v[|v| - 1].blocks)
  }

  /**
   * What a Reset does to the outside: all cleanups run, each thread's from the newest to the oldest, before the blocks
   * are given back once each; it returns the sum of the sizes of all blocks.
   */
  ghost predicate Wipes(v: seq<Part>, initial: Block?, space: nat, log: seq<Event>)
  {
    && space == Spaces(v) && log == CleanupLog(v) + FreedAll(FreedBlocks(v, initial))
    && OnceEach(FreedBlocks(v, initial), v, initial)
  }

  function OnlyInitial(initial: Block?, t: int): seq<Part>
  {
    if initial == null then [] else [Part(t, [initial], [], [])]
  }

  /** Only the initial block is left, and it belongs to the thread that resets. */
  ghost predicate StartsOver(v: seq<Part>, w: seq<Part>, d: Demand, r: Answer, initial: Block?)
  {
    && w == OnlyInitial(initial, d.thread)
    && r.Wiped? && Wipes(v, initial, r.space, r.log)
  }

  ghost predicate Step(v: seq<Part>, w: seq<Part>, d: Demand, r: Answer, k: nat, place: nat, initial: Block?)
  {
    && Answers(d, r) && OwnersDiffer(w)
    && if d.Reset? then StartsOver(v, w, d, r, initial) else Served(v, w, d, r, k, place)
  }

  /** The cleanups in the SerialArena of thread t, if it has one. */
  function OfThread(v: seq<Part>, t: int): seq<CleanupNode>
  {
    if v == [] then []
    else
      var p := v[|v| - 1];
      if p.owner == t then p.registered else OfThread(v[..|v| - 1], t)
  }

  lemma {:induction false} OwnerMissing(v: seq<Part>, t: int)
    requires forall k | 0 <= k < |v| :: v[k].owner != t
    ensures OfThread(v, t) == []
  {
    if v == [] {
    } else {
      OwnerMissing(v[..|v| - 1], t);
    }
  }

  lemma {:induction false} OwnerFound(v: seq<Part>, k: nat)
    requires OwnersDiffer(v) && k < |v|
    ensures OfThread(v, v[k].owner) == v[k].registered
  {
    var n := |v| - 1;
    if k < n {
      assert v[k].owner != v[n].owner;
      OwnerFound(v[..n], k);
    }
  }

  lemma {:induction false} OthersStay(v: seq<Part>, w: seq<Part>, t: int)
    requires |v| == |w| && forall j | 0 <= j < |v| :: v[j].owner == w[j].owner && (v[j].owner == t ==> v[j] == w[j])
    ensures OfThread(v, t) == OfThread(w, t)
  {
    if v == [] {
    } else {
      OthersStay(v[..|v| - 1], w[..|w| - 1], t);
    }
  }

  lemma StepRegisters(v: seq<Part>, w: seq<Part>, d: Demand, r: Answer, k: nat, place: nat, initial: Block?, t: int)
    requires Step(v, w, d, r, k, place, initial) && OwnersDiffer(v)
    ensures OwnersDiffer(w)
    ensures OfThread(w, t) == if d.Reset? then [] else OfThread(v, t) + CleanupOf(d, r, t)
  {
    if d.Reset? {
      assert w != [] ==> w[..|w| - 1] == [];
    } else if t == d.thread {
      OwnerFound(w, k);
      if k < |v| {
        OwnerFound(v, k);
      } else {
        forall j | 0 <= j < |v|
          ensures v[j].owner != t
        {
          assert w[j].owner != w[k].owner;
        }
        OwnerMissing(v, t);
      }
    } else {
      assert CleanupOf(d, r, t) == [];
      assert OfThread(v, t) + [] == OfThread(v, t);
      if k < |v| {
        OthersStay(v, w, t);
      } else {
        assert w[..|v|] == v;
      }
    }
  }

  /** A run: the states before and after each demand, what was answered, and by whom and where. */
  datatype History = History(views: seq<seq<Part>>, results: seq<Answer>, homes: seq<nat>, places: seq<nat>)

  ghost predicate Trace(h: History, demands: seq<Demand>, initial: Block?)
  {
    && |h.views| == |demands| + 1 && |h.results| == |h.homes| == |h.places| == |demands|
    && OwnersDiffer(h.views[0])
    && forall i | 0 <= i < |demands| ::
         Step(h.views[i], h.views[i + 1], demands[i], h.results[i], h.homes[i], h.places[i], initial)
  }

  lemma TraceStep(h: History, demands: seq<Demand>, initial: Block?, i: nat)
    requires Trace(h, demands, initial) && i < |demands|
    ensures Step(h.views[i], h.views[i + 1], demands[i], h.results[i], h.homes[i], h.places[i], initial)
  {
  }

  /** Up to the next Reset nothing is taken back. */
  lemma {:induction false} TraceGrows(h: History, demands: seq<Demand>, initial: Block?, i: nat, j: nat, a: nat)
    requires Trace(h, demands, initial) && i <= j <= |demands| && a < |h.views[i]| && Quiet(demands, i, j)
    ensures a < |h.views[j]| && Grows(h.views[i][a], h.views[j][a])
  {
    if i == j {
    } else {
      TraceGrows(h, demands, initial, i, j - 1, a);
      TraceStep(h, demands, initial, j - 1);
    }
  }

  /** Up to the next Reset a range is still where it was handed out. */
  lemma RangeStays(h: History, demands: seq<Demand>, initial: Block?, i: nat, j: nat)
    requires Trace(h, demands, initial) && i < j <= |demands| && Quiet(demands, i, j)
    ensures var w := h.views[j];
      && h.homes[i] < |w| && w[h.homes[i]].owner == demands[i].thread
      && (h.results[i].Memory? ==> Has(w[h.homes[i]], h.places[i], h.results[i].range))
  {
    TraceStep(h, demands, initial, i);
    TraceGrows(h, demands, initial, i + 1, j, h.homes[i]);
  }

  /** Between two Resets no region is handed out twice. */
  lemma RegionsAreNew(h: History, demands: seq<Demand>, initial: Block?, i: nat, j: nat)
    requires Trace(h, demands, initial) && i < j < |demands| && Quiet(demands, i, j + 1)
    requires h.results[i].Memory? && h.homes[i] == h.homes[j]
    ensures h.places[i] < h.places[j]
  {
    TraceStep(h, demands, initial, i);
    TraceGrows(h, demands, initial, i + 1, j, h.homes[i]);
    TraceStep(h, demands, initial, j);
  }

  /** Up to the first Reset no region is handed out that was there before the run. */
  lemma RegionIsNew(h: History, demands: seq<Demand>, initial: Block?, i: nat)
    requires Trace(h, demands, initial) && i < |demands| && Quiet(demands, 0, i + 1) && h.homes[i] < |h.views[0]|
    ensures h.places[i] >= |h.views[0][h.homes[i]].regions|
  {
    TraceGrows(h, demands, initial, 0, i, h.homes[i]);
    TraceStep(h, demands, initial, i);
  }

  lemma {:induction false} TraceRegisters(h: History, demands: seq<Demand>, initial: Block?, i: nat, t: int)
    requires Trace(h, demands, initial) && i <= |demands|
    ensures OwnersDiffer(h.views[i])
    ensures OfThread(h.views[i], t) == CleanupsAfter(OfThread(h.views[0], t), demands[..i], h.results[..i], t)
  {
    if i == 0 {
    } else {
      hide Step, OfThread, CleanupsAfter, CleanupOf, OwnersDiffer;
      TraceRegisters(h, demands, initial, i - 1, t);
      StepRegisters(h.views[i - 1], h.views[i], demands[i - 1], h.results[i - 1], h.homes[i - 1], h.places[i - 1],
        initial, t);
      CleanupsAfterSnoc(OfThread(h.views[0], t), demands, h.results, i, t);
    }
  }

  lemma OwnersOf(arena: ArenaImpl)
    requires arena.Valid()
    ensures OwnersDiffer(Parts(arena.serials))
  {
  }

  /** A demand for memory or a cleanup, answered by the SerialArena of its thread. */
  method Serve(arena: ArenaImpl, d: Demand) returns (r: Answer, ghost serial: SerialArena, ghost place: nat)
    requires arena.Valid() && !d.Reset? && Fits(d, arena.source.options.layout)
    modifies arena.Repr
    ensures arena.Valid() && Answers(d, r) && serial in arena.serials && serial.owner == d.thread
    ensures arena.serials == if serial in old(arena.serials) then old(arena.serials) else old(arena.serials) + [serial]
    ensures serial in old(arena.serials) ==>
      old(serial.regions) <= serial.regions && old(serial.blocks) <= serial.blocks && place >= |old(serial.regions)|
    ensures r.Memory? ==> serial.HandsOut(place, r.range.block, r.range.offset, r.range.len)
    ensures serial.registered == (if serial in old(arena.serials) then old(serial.registered) else [])
                                 + CleanupOf(d, r, d.thread)
    ensures forall s | s in old(arena.serials) && s != serial ::
      unchanged(s`regions) && unchanged(s`blocks) && unchanged(s`registered)
    ensures forall o | o in arena.Repr :: o in old(arena.Repr) || fresh(o)
  {
    hide ArenaImpl.Valid, SerialArena.HandsOut;
    match d {
      case Allocate(t, n) =>
        var block, offset, s, k := arena.AllocateAligned(n, t);
        r, serial, place := Memory(Range(block, offset, n)), s, k;
      case Register(t, elem, fn) =>
        var s := arena.AddCleanup(elem, fn, t);
        r, serial, place := Nothing, s, |s.regions|;
      case AllocateAndRegister(t, n, fn) =>
        var block, offset, s, k := arena.AllocateAlignedAndAddCleanup(n, fn, t);
        r, serial, place := Memory(Range(block, offset, n)), s, k;
    }
  }

  /** The same as a step of the parts. */
  method ServeOne(arena: ArenaImpl, d: Demand) returns (r: Answer, ghost k: nat, ghost place: nat)
    requires arena.Valid() && !d.Reset? && Fits(d, arena.source.options.layout)
    modifies arena.Repr
    ensures arena.Valid() && OwnersDiffer(Parts(arena.serials))
    ensures Answers(d, r) && Served(old(Parts(arena.serials)), Parts(arena.serials), d, r, k, place)
    ensures forall o | o in arena.Repr :: o in old(arena.Repr) || fresh(o)
  {
    hide ArenaImpl.Valid;
    ghost var before: seq<SerialArena>, v := arena.serials, Parts(arena.serials);
    OwnersOf(arena);
    ghost var serial;
    r, serial, place := Serve(arena, d);
    OwnersOf(arena);
    k := PlaceOf(before, arena.serials, serial);
    forall j | 0 <= j < |before| && before[j] != serial
      ensures Parts(arena.serials)[j] == v[j]
    {
      var s: SerialArena := before[j];
      assert s in before && arena.serials[j] == s;
      assert unchanged(s`regions) && unchanged(s`blocks) && unchanged(s`registered);
      assert v[j] == Part(s.owner, old(s.blocks), old(s.regions), old(s.registered));
    }
    StepTaken(before, v, arena.serials, d, r, serial, k, place);
  }

  lemma PlaceOf(before: seq<SerialArena>, serials: seq<SerialArena>, serial: SerialArena) returns (k: nat)
    requires serials == if serial in before then before else before + [serial]
    ensures k < |serials| && serials[k] == serial && (serial !in before ==> k == |before|)
  {
    if serial in before {
      k :| k < |before| && before[k] == serial;
    } else {
      k := |before|;
    }
  }

  lemma StepTaken(before: seq<SerialArena>, v: seq<Part>, serials: seq<SerialArena>, d: Demand, r: Answer,
                  serial: SerialArena, k: nat, place: nat)
    requires |v| == |before| && k < |serials| && serials[k] == serial && OwnersDiffer(Parts(serials))
    requires serials == if serial in before then before else before + [serial]
    requires serial !in before ==> k == |before|
    requires Answers(d, r) && serial.owner == d.thread
    requires forall j | 0 <= j < |before| && before[j] != serial :: Parts(serials)[j] == v[j]
    requires serial in before ==> Grows(v[k], Parts(serials)[k]) && place >= |v[k].regions|
    requires r.Memory? ==> serial.HandsOut(place, r.range.block, r.range.offset, r.range.len)
    requires serial.registered == (if serial in before then v[k].registered else []) + CleanupOf(d, r, d.thread)
    ensures Served(v, Parts(serials), d, r, k, place)
  {
    var w := Parts(serials);
    forall j | 0 <= j < |v| && j != k
      ensures w[j] == v[j]
    {
      assert w[j].owner == serials[j].owner && w[k].owner == serial.owner;
      assert w[j].owner != w[k].owner;
    }
  }

  lemma {:induction false} LogsAreOfParts(serials: seq<SerialArena>, initial: Block?)
    ensures CleanupLog(Parts(serials)) == AllCleanups(serials)
    ensures FreedBlocks(Parts(serials), initial) == AllFreed(serials, initial)
  {
    if serials == [] {
    } else {
      var n := |serials| - 1;
      assert Parts(serials)[..n] == Parts(serials[..n]);
      LogsAreOfParts(serials[..n], initial);
    }
  }

  lemma {:induction false} SpacesAreSizes(v: seq<Part>, spaces: seq<nat>)
    requires |v| == |spaces| && forall k | 0 <= k < |v| :: spaces[k] == SumSizes(v[k].blocks)
    ensures Spaces(v) == Sum(spaces)
  {
    if v == [] {
    } else {
      SpacesAreSizes(v[..|v| - 1], spaces[..|v| - 1]);
    }
  }

  lemma SpacesOf(arena: ArenaImpl)
    requires arena.Valid()
    ensures Spaces(Parts(arena.serials)) == arena.source.spaceAllocated
  {
    hide SerialArena.Valid, Spaces, Sum, SumSizes;
    SpacesAreSizes(Parts(arena.serials), arena.spaces);
  }

  lemma FreedOnceEach(arena: ArenaImpl)
    requires arena.Valid()
    ensures OnceEach(FreedBlocks(Parts(arena.serials), arena.initialBlock), Parts(arena.serials), arena.initialBlock)
  {
    hide ArenaImpl.Valid, FreedBlocks, AllFreed, CleanupLog, AllCleanups;
    LogsAreOfParts(arena.serials, arena.initialBlock);
    arena.EachBlockFreedOnce();
    var v, freed := Parts(arena.serials), AllFreed(arena.serials, arena.initialBlock);
    forall k, b | 0 <= k < |v| && b in v[k].blocks && b != arena.initialBlock
      ensures (b, b.size) in freed
    {
      assert arena.serials[k] in arena.serials;
    }
    forall e | e in freed
      ensures exists k :: 0 <= k < |v| && e.0 in v[k].blocks
    {
      var s :| s in arena.serials && e.0 in s.blocks;
      var k :| 0 <= k < |arena.serials| && arena.serials[k] == s;
      assert e.0 in v[k].blocks;
    }
  }

  method ResetOne(arena: ArenaImpl, d: Demand) returns (r: Answer)
    requires arena.Valid() && d.Reset?
    modifies arena.Repr
    ensures arena.Valid() && OwnersDiffer(Parts(arena.serials))
    ensures StartsOver(old(Parts(arena.serials)), Parts(arena.serials), d, r, arena.initialBlock)
    ensures forall o | o in arena.Repr :: o in old(arena.Repr) || fresh(o)
  {
    hide ArenaImpl.Valid, FreedBlocks, AllFreed, CleanupLog, AllCleanups, Spaces, OnceEach, FreedAll;
    SpacesOf(arena);
    FreedOnceEach(arena);
    LogsAreOfParts(arena.serials, arena.initialBlock);
    var space, log := arena.Reset(d.thread);
    r := Wiped(space, log);
    OwnersOf(arena);
  }

  /** One demand of any kind. */
  method Perform(arena: ArenaImpl, d: Demand) returns (r: Answer, ghost k: nat, ghost place: nat)
    requires arena.Valid() && Fits(d, arena.source.options.layout)
    modifies arena.Repr
    ensures arena.Valid()
    ensures Step(old(Parts(arena.serials)), Parts(arena.serials), d, r, k, place, arena.initialBlock)
    ensures forall o | o in arena.Repr :: o in old(arena.Repr) || fresh(o)
  {
    hide ArenaImpl.Valid, Served, Wipes, OwnersDiffer;
    if d.Reset? {
      r := ResetOne(arena, d);
      k, place := 0, 0;
    } else {
      r, k, place := ServeOne(arena, d);
    }
  }

  /** The range that region k of SerialArena a stands for. */
  ghost function RangeAt(arena: ArenaImpl, a: nat, k: nat): Range
    requires a < |arena.serials| && k < |arena.serials[a].regions|
    requires arena.serials[a].InLiveMemory(arena.serials[a].regions[k])
    reads arena, arena.serials
  {
    var s := arena.serials[a];
    Range(s.blocks[s.regions[k].block], s.regions[k].start, s.regions[k].len)
  }

  /**
   * The range is aligned, in a live block and clear of its header and of the SerialArena, and apart from everything
   * else that was ever handed out: to any thread before or after, or for a cleanup chunk.
   */
  ghost predicate Separate(arena: ArenaImpl, r: Range, a: nat, k: nat)
    reads arena, arena.serials
  {
    && a < |arena.serials| && k < |arena.serials[a].regions|
    && arena.serials[a].InLiveMemory(arena.serials[a].regions[k]) && r == RangeAt(arena, a, k)
    && forall b, j | 0 <= b < |arena.serials| && 0 <= j < |arena.serials[b].regions| && (a != b || j != k) ::
         arena.serials[b].InLiveMemory(arena.serials[b].regions[j]) && Apart(r, RangeAt(arena, b, j))
  }

  lemma HandedOutIsSeparate(arena: ArenaImpl, r: Range, a: nat, k: nat)
    requires arena.Valid() && a < |arena.serials| && Has(Parts(arena.serials)[a], k, r)
    ensures Separate(arena, r, a, k)
  {
    hide ArenaImpl.Valid, SerialArena.InLiveMemory;
    var s := arena.serials[a];
    arena.RangeIsLive(s, k);
    forall b, j | 0 <= b < |arena.serials| && 0 <= j < |arena.serials[b].regions| && (a != b || j != k)
      ensures arena.serials[b].InLiveMemory(arena.serials[b].regions[j]) && Apart(r, RangeAt(arena, b, j))
    {
      if a != b {
        arena.SerialsDiffer(a, b);
      }
      arena.RangesAreApart(s, k, arena.serials[b], j);
    }
  }

  /** The cleanups registered by thread t. */
  ghost function RegisteredBy(arena: ArenaImpl, t: int): seq<CleanupNode>
    reads arena, arena.serials
  {
    OfThread(Parts(arena.serials), t)
  }

  predicate Complete(h: History, demands: seq<Demand>)
  {
    |h.views| == |demands| + 1 && |h.results| == |h.homes| == |h.places| == |demands|
  }

  /** Every range given since the last Reset is where it was given, in the SerialArena of its thread. */
  ghost predicate RangesSeparate(arena: ArenaImpl, h: History, demands: seq<Demand>)
    requires Complete(h, demands)
    reads arena, arena.serials
  {
    forall i | 0 <= i < |demands| && h.results[i].Memory? && Quiet(demands, i, |demands|) ::
      && Separate(arena, h.results[i].range, h.homes[i], h.places[i])
      && OwnerIs(arena, h.homes[i], demands[i].thread)
  }

  ghost predicate OwnerIs(arena: ArenaImpl, k: nat, t: int)
    reads arena, arena.serials
  {
    k < |arena.serials| && arena.serials[k].owner == t
  }

  /** Any two ranges with no Reset between them are apart. */
  ghost predicate RangesApart(demands: seq<Demand>, results: seq<Answer>)
    requires |results| <= |demands|
  {
    forall i, j | 0 <= i < j < |results| && Quiet(demands, i, j) && results[i].Memory? && results[j].Memory? ::
      Apart(results[i].range, results[j].range)
  }

  /** All that was there at one time is there at another, if there is no Reset between them. */
  ghost predicate NothingLost(h: History, demands: seq<Demand>)
    requires Complete(h, demands)
  {
    forall i, j | 0 <= i <= j <= |demands| && Quiet(demands, i, j) :: AllGrow(h.views[i], h.views[j])
  }

  ghost predicate AllGrow(v: seq<Part>, w: seq<Part>)
  {
    |v| <= |w| && forall a | 0 <= a < |v| :: Grows(v[a], w[a])
  }

  /** Each Reset runs and gives back what is there at the time, and leaves the initial block. */
  ghost predicate ResetsWipe(h: History, demands: seq<Demand>, initial: Block?)
    requires Complete(h, demands)
  {
    forall i | 0 <= i < |demands| && demands[i].Reset? ::
      StartsOver(h.views[i], h.views[i + 1], demands[i], h.results[i], initial)
  }

  /** At all times each thread has the cleanups it registered since the last Reset, in order. */
  ghost predicate CleanupsKept(h: History, demands: seq<Demand>)
    requires Complete(h, demands)
  {
    forall i, t | 0 <= i <= |demands| :: CleanupsAre(h, demands, i, t)
  }

  ghost predicate CleanupsAre(h: History, demands: seq<Demand>, i: nat, t: int)
    requires Complete(h, demands) && i <= |demands|
  {
    && OwnersDiffer(h.views[i])
    && OfThread(h.views[i], t) == CleanupsAfter(OfThread(h.views[0], t), demands[..i], h.results[..i], t)
  }

  ghost predicate RegionsNew(h: History, demands: seq<Demand>)
    requires Complete(h, demands)
  {
    forall i | 0 <= i < |demands| && Quiet(demands, 0, i + 1) && h.homes[i] < |h.views[0]| ::
      h.places[i] >= |h.views[0][h.homes[i]].regions|
  }

  /**
   * Over any run, on an arena in any state: every demand is answered. Between two Resets the ranges are apart from each
   * other and from everything else handed out, and nothing moves. Each thread's cleanups are those it had and those it
   * registered, in order, up to a Reset; and each Reset runs and gives back what was there, as Wipes says.
   */
  method Run(arena: ArenaImpl, demands: seq<Demand>) returns (results: seq<Answer>, ghost h: History)
    requires arena.Valid() && forall d | d in demands :: Fits(d, arena.source.options.layout)
    modifies arena.Repr
    ensures arena.Valid() && Complete(h, demands) && results == h.results
    ensures h.views[0] == old(Parts(arena.serials)) && h.views[|demands|] == Parts(arena.serials)
    ensures forall i | 0 <= i < |demands| :: Answers(demands[i], results[i])
    ensures RangesSeparate(arena, h, demands) && RangesApart(demands, results)
    ensures RegionsNew(h, demands) && NothingLost(h, demands)
    ensures ResetsWipe(h, demands, arena.initialBlock) && CleanupsKept(h, demands)
    ensures forall t :: RegisteredBy(arena, t) == CleanupsAfter(old(RegisteredBy(arena, t)), demands, results, t)
    ensures forall o | o in arena.Repr :: o in old(arena.Repr) || fresh(o)
  {
    hide ArenaImpl.Valid, Step, Fits, RangesApart, RangesSeparate, RegionsNew, NothingLost, ResetsWipe, CleanupsKept,
      CleanupsAfter, OfThread, Answers;
    h := History([Parts(arena.serials)], [], [], []);
    OwnersOf(arena);
    results := [];
    NoRanges(demands);
    var i := 0;
    while i < |demands|
      invariant i <= |demands| && arena.Valid()
      invariant forall o | o in arena.Repr :: o in old(arena.Repr) || fresh(o)
      invariant Trace(h, demands[..i], arena.initialBlock) && results == h.results && |results| == i
      invariant h.views[0] == old(Parts(arena.serials)) && h.views[i] == Parts(arena.serials)
      invariant RangesApart(demands, results)
    {
      var r, k, place := Perform(arena, demands[i]);
      h := TraceSnoc(h, demands, arena.initialBlock, i, Parts(arena.serials), r, k, place);
      assert h.results[..i] == results;
      results := results + [r];
      NewRangeApart(arena, h, demands, i);
      i := i + 1;
    }
    assert demands[..i] == demands;
    Outcome(arena, h, demands);
    TraceOutcome(h, demands, arena.initialBlock);
  }

  lemma NoRanges(demands: seq<Demand>)
    ensures RangesApart(demands, [])
  {
  }

  ghost function TraceSnoc(h: History, demands: seq<Demand>, initial: Block?, i: nat, w: seq<Part>, r: Answer, k: nat,
                           place: nat): (g: History)
    requires i < |demands| && Trace(h, demands[..i], initial)
    requires Step(h.views[i], w, demands[i], r, k, place, initial)
    ensures Trace(g, demands[..i + 1], initial)
    ensures g == History(h.views + [w], h.results + [r], h.homes + [k], h.places + [place])
  {
    hide Step;
    History(h.views + [w], h.results + [r], h.homes + [k], h.places + [place])
  }

  /** The range just handed out is apart from those since the last Reset. */
  lemma NewRangeApart(arena: ArenaImpl, h: History, demands: seq<Demand>, n: nat)
    requires arena.Valid() && n < |demands| && Trace(h, demands[..n + 1], arena.initialBlock)
    requires h.views[n + 1] == Parts(arena.serials) && RangesApart(demands, h.results[..n])
    ensures RangesApart(demands, h.results)
  {
    hide ArenaImpl.Valid, Step, Separate, Has, Apart, Grows;
    forall i | 0 <= i < n && Quiet(demands, i, n) && h.results[i].Memory? && h.results[n].Memory?
      ensures Apart(h.results[i].range, h.results[n].range)
    {
      TwoApart(arena, h, demands[..n + 1], i);
    }
    assert forall i | 0 <= i < n :: h.results[..n][i] == h.results[i];
  }

  lemma TwoApart(arena: ArenaImpl, h: History, demands: seq<Demand>, i: nat)
    requires arena.Valid() && Trace(h, demands, arena.initialBlock) && h.views[|demands|] == Parts(arena.serials)
    requires i < |demands| - 1 && Quiet(demands, i, |demands| - 1)
    requires h.results[i].Memory? && h.results[|demands| - 1].Memory?
    ensures Apart(h.results[i].range, h.results[|demands| - 1].range)
  {
    hide ArenaImpl.Valid, Separate, Has, Apart, Grows, Wipes, OwnersDiffer;
    var n := |demands| - 1;
    TraceStep(h, demands, arena.initialBlock, n);
    hide Step;
    RangeIsSeparate(arena, h, demands, i);
    RangeIsSeparate(arena, h, demands, n);
    if h.homes[i] == h.homes[n] {
      RegionsAreNew(h, demands, arena.initialBlock, i, n);
    }
    SeparateAreApart(arena, h.results[i].range, h.homes[i], h.places[i], h.results[n].range, h.homes[n], h.places[n]);
  }

  lemma RangeIsSeparate(arena: ArenaImpl, h: History, demands: seq<Demand>, i: nat)
    requires arena.Valid() && Trace(h, demands, arena.initialBlock) && h.views[|demands|] == Parts(arena.serials)
    requires i < |demands| && h.results[i].Memory? && Quiet(demands, i, |demands|)
    ensures Separate(arena, h.results[i].range, h.homes[i], h.places[i])
    ensures OwnerIs(arena, h.homes[i], demands[i].thread)
  {
    hide ArenaImpl.Valid, Separate, Has, Step;
    RangeStays(h, demands, arena.initialBlock, i, |demands|);
    HandedOutIsSeparate(arena, h.results[i].range, h.homes[i], h.places[i]);
  }

  lemma SeparateAreApart(arena: ArenaImpl, x: Range, a: nat, k: nat, y: Range, b: nat, j: nat)
    requires Separate(arena, x, a, k) && Separate(arena, y, b, j) && (a != b || k != j)
    ensures Apart(x, y)
  {
  }

  lemma Outcome(arena: ArenaImpl, h: History, demands: seq<Demand>)
    requires arena.Valid() && Trace(h, demands, arena.initialBlock) && h.views[|demands|] == Parts(arena.serials)
    ensures Complete(h, demands) && RangesSeparate(arena, h, demands)
    ensures forall t :: RegisteredBy(arena, t) == CleanupsAfter(OfThread(h.views[0], t), demands, h.results, t)
  {
    hide ArenaImpl.Valid, Separate, OwnerIs, Has, Step, CleanupsAfter, OfThread, RegionsNew, NothingLost, ResetsWipe;
    forall i | 0 <= i < |demands| && h.results[i].Memory? && Quiet(demands, i, |demands|)
      ensures Separate(arena, h.results[i].range, h.homes[i], h.places[i])
      ensures OwnerIs(arena, h.homes[i], demands[i].thread)
    {
      RangeIsSeparate(arena, h, demands, i);
    }
    forall t
      ensures RegisteredBy(arena, t) == CleanupsAfter(OfThread(h.views[0], t), demands, h.results, t)
    {
      TraceRegisters(h, demands, arena.initialBlock, |demands|, t);
      assert demands[..|demands|] == demands && h.results[..|demands|] == h.results;
    }
  }

  /** The same without the arena: what a history alone says. */
  lemma TraceOutcome(h: History, demands: seq<Demand>, initial: Block?)
    requires Trace(h, demands, initial)
    ensures Complete(h, demands) && forall i | 0 <= i < |demands| :: Answers(demands[i], h.results[i])
    ensures RegionsNew(h, demands) && NothingLost(h, demands)
    ensures ResetsWipe(h, demands, initial) && CleanupsKept(h, demands)
  {
    hide Grows, CleanupsAfter, OfThread, OwnersDiffer, StartsOver, Served, Answers;
    forall i | 0 <= i < |demands| && Quiet(demands, 0, i + 1) && h.homes[i] < |h.views[0]|
      ensures h.places[i] >= |h.views[0][h.homes[i]].regions|
    {
      RegionIsNew(h, demands, initial, i);
    }
    forall i, j | 0 <= i <= j <= |demands| && Quiet(demands, i, j)
      ensures AllGrow(h.views[i], h.views[j])
    {
      ViewsGrow(h, demands, initial, i, j);
    }
    forall i | 0 <= i < |demands|
      ensures Answers(demands[i], h.results[i])
      ensures demands[i].Reset? ==> StartsOver(h.views[i], h.views[i + 1], demands[i], h.results[i], initial)
    {
      TraceStep(h, demands, initial, i);
    }
    forall i, t | 0 <= i <= |demands|
      ensures CleanupsAre(h, demands, i, t)
    {
      TraceRegisters(h, demands, initial, i, t);
    }
  }

  lemma ViewsGrow(h: History, demands: seq<Demand>, initial: Block?, i: nat, j: nat)
    requires Trace(h, demands, initial) && i <= j <= |demands| && Quiet(demands, i, j)
    ensures AllGrow(h.views[i], h.views[j])
  {
    hide Step, Grows;
    forall a | 0 <= a < |h.views[i]|
      ensures a < |h.views[j]| && Grows(h.views[i][a], h.views[j][a])
    {
      TraceGrows(h, demands, initial, i, j, a);
    }
    if |h.views[i]| > 0 {
      TraceGrows(h, demands, initial, i, j, |h.views[i]| - 1);
    }
  }

  /**
   * A Reset after any run calls, before it frees a block, every cleanup that any thread has registered: each thread
   * has at most one part of the log, in which exactly its cleanups run, once each, the newest first. Then it gives
   * every block but the initial one back once, and returns the sum of the sizes of all blocks.
   */
  method RunAndReset(arena: ArenaImpl, demands: seq<Demand>, me: int)
    returns (results: seq<Answer>, space: nat, log: seq<Event>, ghost v: seq<Part>, ghost freed: seq<(Block, nat)>)
    requires arena.Valid() && forall d | d in demands :: Fits(d, arena.source.options.layout)
    modifies arena.Repr
    ensures arena.Valid() && |results| == |demands| && OwnersDiffer(v)
    ensures forall t :: OfThread(v, t) == CleanupsAfter(old(RegisteredBy(arena, t)), demands, results, t)
    ensures log == CleanupLog(v) + FreedAll(freed) && OnceEach(freed, v, arena.initialBlock) && space == Spaces(v)
    ensures forall o | o in arena.Repr :: o in old(arena.Repr) || fresh(o)
  {
    hide ArenaImpl.Valid, OfThread, CleanupsAfter, CleanupLog, FreedAll, FreedBlocks, OnceEach, Spaces, RangesSeparate,
      RangesApart, RegionsNew, NothingLost, ResetsWipe, CleanupsKept;
    ghost var h;
    results, h := Run(arena, demands);
    OwnersOf(arena);
    v, freed := Parts(arena.serials), FreedBlocks(Parts(arena.serials), arena.initialBlock);
    var r := ResetOne(arena, Reset(me));
    space, log := r.space, r.log;
  }
}
