/**
 * GetSerialArena under concurrency: any number of threads and arenas, one atomic step of one thread at a time.
 * Addresses of arenas and SerialArenas are numbers, and a freed address may be used again at once.
 */
module ArenaThreads {
  import opened Prelude

  type Addr = nat
  type Thread = nat

  /** A live SerialArena: its owner is a thread's cache, its `next` is set before it is published. */
  datatype Serial = Serial(arena: Addr, owner: Thread, next: Option<Addr>)

  /** `published` is history: the SerialArenas pushed on `threads` since the last Init, newest first. */
  datatype Arena = Arena(id: int, threads: Option<Addr>, hint: Option<Addr>, published: seq<Addr>)

  datatype Cache = Cache(id: int, serial: Option<Addr>)

  /** Where a thread is in GetSerialArena, and its local variables. */
  datatype Pc =
    | Idle
    | CheckCache(arena: Addr)
    | LoadHint(arena: Addr)
    | CheckHint(arena: Addr, hint: Option<Addr>)
    | LoadThreads(arena: Addr)
    | Walk(arena: Addr, serial: Option<Addr>)
    | NewBlock(arena: Addr)
    | LoadHead(arena: Addr, mine: Addr)
    | SetNext(arena: Addr, mine: Addr, head: Option<Addr>)
    | Cas(arena: Addr, mine: Addr, head: Option<Addr>)
    | WriteCachedSerial(arena: Addr, mine: Addr)
    | WriteCachedId(arena: Addr, mine: Addr)
    | WriteHint(arena: Addr, mine: Addr)
    | Returned(arena: Addr, mine: Addr)

  datatype State = State(generator: int, arenas: map<Addr, Arena>, serials: map<Addr, Serial>,
                         caches: map<Thread, Cache>, pcs: map<Thread, Pc>)

  const INITIAL := State(0, map[], map[], map[], map[])

  /**
   * Advance is the thread's next atomic action inside GetSerialArena: `at` is where a new block would be, and
   * `chance` decides what the caller's state does not. A thread that starts may get the cache address, and so the
   * identity, of one that has ended.
   */
  datatype Step =
    | Start
    | Exit
    | Call(arena: Addr)
    | Advance(at: Addr, chance: bool)
    | Construct(arena: Addr, initial: Option<Addr>)
    | Reset(arena: Addr, initial: Option<Addr>)
    | Destroy(arena: Addr)

  function Goto(c: State, t: Thread, pc: Pc): State
  {
    c.(pcs := c.pcs[t := pc])
  }

  /** One step of thread t, when it is enabled; a step that reads a SerialArena needs a live one. */
  function Next(c: State, t: Thread, step: Step): Option<State>
  {
    if step.Start? then
      // A new thread's cache matches no arena.
      if t in c.pcs then None else Some(c.(caches := c.caches[t := Cache(-1, None)], pcs := c.pcs[t := Idle]))
    else if t !in c.pcs || t !in c.caches then None
    else if c.pcs[t].Idle? then Outside(c, t, step)
    else if !step.Advance? || c.pcs[t].arena !in c.arenas then None
    else
      match c.pcs[t]
      case CheckCache(_) => FastStep(c, t, step.chance)
      case LoadHint(_) => FastStep(c, t, step.chance)
      case CheckHint(_, _) => FastStep(c, t, step.chance)
      case LoadThreads(_) => SearchStep(c, t)
      case Walk(_, _) => SearchStep(c, t)
      case NewBlock(_) => PushStep(c, t, step.at, step.chance)
      case LoadHead(_, _) => PushStep(c, t, step.at, step.chance)
      case SetNext(_, _, _) => PushStep(c, t, step.at, step.chance)
      case Cas(_, _, _) => PushStep(c, t, step.at, step.chance)
      case _ => CacheStep(c, t)
  }

  /** GetSerialArenaFast: the thread cache, then the hint. */
  function FastStep(c: State, t: Thread, again: bool): Option<State>
    requires t in c.pcs && t in c.caches && !c.pcs[t].Idle? && c.pcs[t].arena in c.arenas
  {
    var a := c.pcs[t].arena;
    var arena := c.arenas[a];
    match c.pcs[t]
    case CheckCache(_) =>
      if c.caches[t].id != arena.id then Some(Goto(c, t, LoadHint(a)))
      else if c.caches[t].serial == None then None
      else Some(Goto(c, t, Returned(a, c.caches[t].serial.value)))
    case LoadHint(_) => Some(Goto(c, t, CheckHint(a, arena.hint)))
    case CheckHint(_, hint) =>
      if hint == None || (hint.value in c.serials && c.serials[hint.value].owner != t) then
        // A caller that failed once tries the fast path again before it goes on.
        Some(Goto(c, t, if again then CheckCache(a) else LoadThreads(a)))
      else if hint.value in c.serials then Some(Goto(c, t, Returned(a, hint.value)))
      else None
    case _ => None
  }

  /** GetSerialArenaFallback: the walk along the list. */
  function SearchStep(c: State, t: Thread): Option<State>
    requires t in c.pcs && !c.pcs[t].Idle? && c.pcs[t].arena in c.arenas
  {
    var a := c.pcs[t].arena;
    match c.pcs[t]
    case LoadThreads(_) => Some(Goto(c, t, Walk(a, c.arenas[a].threads)))
    case Walk(_, None) => Some(Goto(c, t, NewBlock(a)))
    case Walk(_, Some(s)) =>
      if s !in c.serials then None
      else if c.serials[s].owner == t then Some(Goto(c, t, WriteCachedSerial(a, s)))
      else Some(Goto(c, t, Walk(a, c.serials[s].next)))
    case _ => None
  }

  /** GetSerialArenaFallback: a new SerialArena, and the loop that pushes it. */
  function PushStep(c: State, t: Thread, at: Addr, spurious: bool): Option<State>
    requires t in c.pcs && !c.pcs[t].Idle? && c.pcs[t].arena in c.arenas
  {
    var a := c.pcs[t].arena;
    var arena := c.arenas[a];
    match c.pcs[t]
    case NewBlock(_) =>
      if at in c.serials then None
      else Some(Goto(c.(serials := c.serials[at := Serial(a, t, None)]), t, LoadHead(a, at)))
    case LoadHead(_, s) => Some(Goto(c, t, SetNext(a, s, arena.threads)))
    case SetNext(_, s, head) =>
      if s !in c.serials then None
      else Some(Goto(c.(serials := c.serials[s := c.serials[s].(next := head)]), t, Cas(a, s, head)))
    case Cas(_, s, head) =>
      // compare_exchange_weak may fail for no reason; whenever it fails, it reads the head again.
      if arena.threads == head && !spurious then
        var pushed := arena.(threads := Some(s), published := [s] + arena.published);
        Some(Goto(c.(arenas := c.arenas[a := pushed]), t, WriteCachedSerial(a, s)))
      else Some(Goto(c, t, SetNext(a, s, arena.threads)))
    case _ => None
  }

  /** CacheSerialArena, in the order in which it writes. */
  function CacheStep(c: State, t: Thread): Option<State>
    requires t in c.pcs && t in c.caches && !c.pcs[t].Idle? && c.pcs[t].arena in c.arenas
  {
    var a := c.pcs[t].arena;
    var cache := c.caches[t];
    match c.pcs[t]
    case WriteCachedSerial(_, s) =>
      Some(Goto(c.(caches := c.caches[t := cache.(serial := Some(s))]), t, WriteCachedId(a, s)))
    case WriteCachedId(_, s) =>
      Some(Goto(c.(caches := c.caches[t := cache.(id := c.arenas[a].id)]), t, WriteHint(a, s)))
    case WriteHint(_, s) =>
      Some(Goto(c.(arenas := c.arenas[a := c.arenas[a].(hint := Some(s))]), t, Returned(a, s)))
    case Returned(_, _) => Some(Goto(c, t, Idle))
    case _ => None
  }

  /** No thread is in the arena: what Reset and the destructor ask of their callers. */
  predicate Quiescent(c: State, a: Addr)
  {
    forall t | t in c.pcs :: c.pcs[t].Idle? || c.pcs[t].arena != a
  }

  /** Init on the arena at `a`: a fresh id, and the caller's SerialArena in the initial block if there is one. */
  function Init(c: State, t: Thread, a: Addr, initial: Option<Addr>): State
  {
    var c1 := c.(generator := c.generator + 1);
    match initial
    case None => c1.(arenas := c.arenas[a := Arena(c.generator, None, None, [])])
    case Some(s) =>
      Goto(c1.(arenas := c.arenas[a := Arena(c.generator, Some(s), None, [s])],
               serials := c.serials[s := Serial(a, t, None)]), t, WriteCachedSerial(a, s))
  }

  /** FreeBlocks: every SerialArena in the list goes. */
  function Free(c: State, a: Addr): State
    requires a in c.arenas
  {
    c.(serials := map s | s in c.serials && s !in c.arenas[a].published :: c.serials[s], arenas := c.arenas - {a})
  }

  /** The steps of a thread that is in no arena. */
  function Outside(c: State, t: Thread, step: Step): Option<State>
  {
    match step
    case Exit => Some(c.(caches := c.caches - {t}, pcs := c.pcs - {t}))
    case Call(a) => if a in c.arenas then Some(Goto(c, t, CheckCache(a))) else None
    case Construct(a, initial) =>
      if a in c.arenas || (initial.Some? && initial.value in c.serials) then None
      else Some(Init(c, t, a, initial))
    case Reset(a, initial) =>
      if a !in c.arenas || !Quiescent(c, a) then None
      else if initial.Some? && initial.value in Free(c, a).serials then None
      else Some(Init(Free(c, a), t, a, initial))
    case Destroy(a) => if a in c.arenas && Quiescent(c, a) then Some(Free(c, a)) else None
    case _ => None
  }

  function At(p: seq<Addr>, i: nat): Option<Addr>
  {
    if i < |p| then Some(p[i]) else None
  }

  /** The list that `threads` and the `next` fields make is the history: acyclic, live, one entry per thread. */
  ghost predicate ListOk(serials: map<Addr, Serial>, a: Addr, arena: Arena)
  {
    && arena.threads == At(arena.published, 0)
    && (forall i | 0 <= i < |arena.published| ::
          var s := arena.published[i];
          s in serials && serials[s].arena == a && serials[s].next == At(arena.published, i + 1))
    && (forall i, j | 0 <= i < j < |arena.published| ::
          arena.published[i] != arena.published[j]
          && serials[arena.published[i]].owner != serials[arena.published[j]].owner)
    && (arena.hint.Some? ==> arena.hint.value in arena.published)
  }

  ghost predicate NoneOwned(serials: map<Addr, Serial>, p: seq<Addr>, t: Thread)
  {
    forall s | s in p :: s in serials ==> serials[s].owner != t
  }

  /** `s` is in the list and the thread owns nothing before it. */
  ghost predicate NoneOwnedBefore(serials: map<Addr, Serial>, p: seq<Addr>, s: Addr, t: Thread)
  {
    exists k :: 0 <= k < |p| && p[k] == s && NoneOwned(serials, p[..k], t)
  }

  ghost predicate Own(c: State, t: Thread, a: Addr, s: Addr)
    requires a in c.arenas
  {
    s in c.arenas[a].published && s in c.serials && c.serials[s].owner == t
  }

  /** The SerialArena is the thread's, not published, and the thread has no other in the arena. */
  ghost predicate Pending(c: State, t: Thread, a: Addr, s: Addr)
    requires a in c.arenas
  {
    && s in c.serials && c.serials[s].arena == a && c.serials[s].owner == t
    && s !in c.arenas[a].published && NoneOwned(c.serials, c.arenas[a].published, t)
  }

  ghost predicate PcOk(c: State, t: Thread)
    requires t in c.pcs && t in c.caches
  {
    c.pcs[t].Idle? ||
    var a := c.pcs[t].arena;
    a in c.arenas &&
    match c.pcs[t]
    case CheckHint(_, hint) => hint.Some? ==> hint.value in c.arenas[a].published
    case Walk(_, None) => NoneOwned(c.serials, c.arenas[a].published, t)
    case Walk(_, Some(s)) => NoneOwnedBefore(c.serials, c.arenas[a].published, s, t)
    case NewBlock(_) => NoneOwned(c.serials, c.arenas[a].published, t)
    case LoadHead(_, s) => Pending(c, t, a, s)
    case SetNext(_, s, _) => Pending(c, t, a, s)
    case Cas(_, s, head) => Pending(c, t, a, s) && c.serials[s].next == head
    case WriteCachedSerial(_, s) => Own(c, t, a, s)
    case WriteCachedId(_, s) => Own(c, t, a, s) && c.caches[t].serial == Some(s)
    case WriteHint(_, s) => Own(c, t, a, s)
    case Returned(_, s) => Own(c, t, a, s)
    case _ => true
  }

  /** A cache that matches an arena, except between its two writes, holds the thread's own SerialArena there. */
  ghost predicate CacheOk(c: State, t: Thread)
    requires t in c.pcs && t in c.caches
  {
    && c.caches[t].id < c.generator
    && (forall a | a in c.arenas && c.arenas[a].id == c.caches[t].id && !c.pcs[t].WriteCachedId? ::
          c.caches[t].serial.Some? && Own(c, t, a, c.caches[t].serial.value))
  }

  /** Every live SerialArena is in its arena's list or in the hands of its owner. */
  ghost predicate Kept(c: State, s: Addr)
    requires s in c.serials
  {
    var serial := c.serials[s];
    && serial.arena in c.arenas
    && (s in c.arenas[serial.arena].published
        || (serial.owner in c.pcs && Holds(c.pcs[serial.owner], s) && c.pcs[serial.owner].arena == serial.arena))
  }

  predicate Holds(pc: Pc, s: Addr)
  {
    (pc.LoadHead? || pc.SetNext? || pc.Cas?) && pc.mine == s
  }

  ghost predicate Invariant(c: State)
  {
    && c.generator >= 0
    && c.caches.Keys == c.pcs.Keys
    && (forall a | a in c.arenas :: 0 <= c.arenas[a].id < c.generator)
    && (forall a, b | a in c.arenas && b in c.arenas && a != b :: c.arenas[a].id != c.arenas[b].id)
    && (forall a | a in c.arenas :: ListOk(c.serials, a, c.arenas[a]))
    && (forall t | t in c.pcs :: PcOk(c, t) && CacheOk(c, t))
    && (forall s | s in c.serials :: Kept(c, s))
  }

  /** In `after`, thread t finds the arenas it knows as they were, at most with new entries of other threads. */
  ghost predicate Sees(c: State, after: State, t: Thread)
    requires t in c.pcs
  {
    && c.generator <= after.generator
    && (forall a | a in after.arenas ::
          (a in c.arenas && after.arenas[a].id == c.arenas[a].id && Grown(c, after, t, a))
          || after.arenas[a].id >= c.generator)
    && (c.pcs[t].Idle? || c.pcs[t].arena !in c.arenas
        || (c.pcs[t].arena in after.arenas && after.arenas[c.pcs[t].arena].id == c.arenas[c.pcs[t].arena].id))
  }

  ghost predicate Grown(c: State, after: State, t: Thread, a: Addr)
    requires a in c.arenas && a in after.arenas
  {
    var p, q := c.arenas[a].published, after.arenas[a].published;
    && (q == p || (q != [] && q[1..] == p && q[0] in after.serials && after.serials[q[0]].owner != t))
    && (forall s | s in c.serials && c.serials[s].arena == a ::
          s in after.serials && after.serials[s].arena == a && after.serials[s].owner == c.serials[s].owner
          && (c.serials[s].owner == t ==> after.serials[s] == c.serials[s] && (s in q ==> s in p)))
  }

  lemma NoneOwnedStays(c: State, after: State, t: Thread, a: Addr)
    requires a in c.arenas && a in after.arenas && ListOk(c.serials, a, c.arenas[a]) && Grown(c, after, t, a)
    requires NoneOwned(c.serials, c.arenas[a].published, t)
    ensures NoneOwned(after.serials, after.arenas[a].published, t)
  {
    var p, q := c.arenas[a].published, after.arenas[a].published;
    forall s | s in q
      ensures s in after.serials ==> after.serials[s].owner != t
    {
      if q != p {
        assert q == [q[0]] + p;
      }
    }
  }

  lemma NoneOwnedBeforeStays(c: State, after: State, t: Thread, a: Addr, s: Addr)
    requires a in c.arenas && a in after.arenas && ListOk(c.serials, a, c.arenas[a]) && Grown(c, after, t, a)
    requires NoneOwnedBefore(c.serials, c.arenas[a].published, s, t)
    ensures NoneOwnedBefore(after.serials, after.arenas[a].published, s, t)
  {
    hide NoneOwned;
    var p, q := c.arenas[a].published, after.arenas[a].published;
    var k :| 0 <= k < |p| && p[k] == s && NoneOwned(c.serials, p[..k], t);
    assert forall x | x in p[..k] :: x in p;
    SameOwners(c.serials, after.serials, p[..k], t);
    if q != p {
      NoneOwnedCons(after.serials, q[0], p[..k], t);
      HeadAndTake(q, k);
      assert q[k + 1] == s;
    }
  }

  lemma HeadAndTake(q: seq<Addr>, k: nat)
    requires q != [] && k < |q[1..]|
    ensures q[..k + 1] == [q[0]] + q[1..][..k]
  {
  }

  lemma SameOwners(serials: map<Addr, Serial>, after: map<Addr, Serial>, p: seq<Addr>, t: Thread)
    requires NoneOwned(serials, p, t)
    requires forall x | x in p :: x in serials && x in after && after[x].owner == serials[x].owner
    ensures NoneOwned(after, p, t)
  {
  }

  lemma NoneOwnedCons(serials: map<Addr, Serial>, x: Addr, p: seq<Addr>, t: Thread)
    requires NoneOwned(serials, p, t) && x in serials && serials[x].owner != t
    ensures NoneOwned(serials, [x] + p, t)
  {
  }

  /** A step of another thread leaves what holds for t. */
  lemma OtherThreadKeeps(c: State, after: State, t: Thread)
    requires Invariant(c) && t in c.pcs && t in after.pcs && t in after.caches && Sees(c, after, t)
    requires after.pcs[t] == c.pcs[t] && after.caches[t] == c.caches[t]
    ensures PcOk(after, t) && CacheOk(after, t)
  {
    hide NoneOwned, NoneOwnedBefore, Kept;
    assert PcOk(c, t) && CacheOk(c, t);
    if !c.pcs[t].Idle? {
      var a := c.pcs[t].arena;
      assert ListOk(c.serials, a, c.arenas[a]);
      if c.pcs[t].Walk? && c.pcs[t].serial.Some? {
        NoneOwnedBeforeStays(c, after, t, a, c.pcs[t].serial.value);
      } else if NoneOwned(c.serials, c.arenas[a].published, t) {
        NoneOwnedStays(c, after, t, a);
      }
    }
  }

  /** The parts of the invariant that are not about one thread. */
  ghost predicate SharedOk(c: State)
  {
    && c.generator >= 0
    && (forall a | a in c.arenas :: 0 <= c.arenas[a].id < c.generator)
    && (forall a, b | a in c.arenas && b in c.arenas && a != b :: c.arenas[a].id != c.arenas[b].id)
    && (forall a | a in c.arenas :: ListOk(c.serials, a, c.arenas[a]))
    && (forall s | s in c.serials :: Kept(c, s))
  }

  /** One thread's own step, seen by the others. */
  lemma ThreadStepKeeps(c: State, after: State, t: Thread)
    requires Invariant(c) && t in c.pcs
    requires after.caches.Keys == after.pcs.Keys == c.pcs.Keys
    requires forall u | u in c.pcs && u != t ::
      after.pcs[u] == c.pcs[u] && after.caches[u] == c.caches[u] && Sees(c, after, u)
    requires SharedOk(after) && PcOk(after, t) && CacheOk(after, t)
    ensures Invariant(after)
  {
    forall u | u in after.pcs
      ensures PcOk(after, u) && CacheOk(after, u)
    {
      if u != t {
        OtherThreadKeeps(c, after, u);
      }
    }
  }

  /** Only the thread's position changes, and it does not let go of a SerialArena of its own. */
  lemma GotoKeeps(c: State, t: Thread, pc: Pc)
    requires Invariant(c) && t in c.pcs && PcOk(Goto(c, t, pc), t) && !c.pcs[t].WriteCachedId? && !pc.WriteCachedId?
    requires forall s | s in c.serials && Holds(c.pcs[t], s) :: Holds(pc, s) && pc.arena == c.pcs[t].arena
    ensures Invariant(Goto(c, t, pc))
  {
    hide ListOk, PcOk;
    var after := Goto(c, t, pc);
    forall s | s in after.serials
      ensures Kept(after, s)
    {
      assert Kept(c, s);
    }
    assert CacheOk(c, t);
    ThreadStepKeeps(c, after, t);
  }

  /** What the invariant says of one thread and of the arena it is in. */
  lemma Here(c: State, t: Thread)
    requires Invariant(c) && t in c.pcs
    ensures t in c.caches && PcOk(c, t) && CacheOk(c, t) && c.caches.Keys == c.pcs.Keys && SharedOk(c)
    ensures !c.pcs[t].Idle? ==>
      c.pcs[t].arena in c.arenas && ListOk(c.serials, c.pcs[t].arena, c.arenas[c.pcs[t].arena])
  {
  }

  lemma FastStepKeeps(c: State, t: Thread, again: bool)
    requires Invariant(c) && t in c.pcs && t in c.caches && !c.pcs[t].Idle? && c.pcs[t].arena in c.arenas
    requires FastStep(c, t, again).Some?
    ensures Invariant(FastStep(c, t, again).value)
  {
    hide Invariant, SharedOk, PcOk, CacheOk, ListOk;
    Here(c, t);
    FastStepOwn(c, t, again);
    GotoKeeps(c, t, FastStep(c, t, again).value.pcs[t]);
  }

  lemma FastStepOwn(c: State, t: Thread, again: bool)
    requires t in c.pcs && t in c.caches && !c.pcs[t].Idle? && c.pcs[t].arena in c.arenas
    requires PcOk(c, t) && CacheOk(c, t) && ListOk(c.serials, c.pcs[t].arena, c.arenas[c.pcs[t].arena])
    requires FastStep(c, t, again).Some?
    ensures PcOk(FastStep(c, t, again).value, t)
  {
    hide NoneOwned, NoneOwnedBefore, Pending;
  }

  lemma SearchStepKeeps(c: State, t: Thread)
    requires Invariant(c) && t in c.pcs && !c.pcs[t].Idle? && c.pcs[t].arena in c.arenas
    requires SearchStep(c, t).Some?
    ensures Invariant(SearchStep(c, t).value)
  {
    hide Invariant, SharedOk, CacheOk, NoneOwnedBefore, ListOk;
    var a := c.pcs[t].arena;
    Here(c, t);
    if c.pcs[t].LoadThreads? {
      WalkStarts(c.serials, a, c.arenas[a], t);
    } else if c.pcs[t].serial.Some? {
      WalkOneOn(c.serials, a, c.arenas[a], c.pcs[t].serial.value, t);
    }
    GotoKeeps(c, t, SearchStep(c, t).value.pcs[t]);
  }

  lemma WalkStarts(serials: map<Addr, Serial>, a: Addr, arena: Arena, t: Thread)
    requires ListOk(serials, a, arena)
    ensures match arena.threads
      case None => NoneOwned(serials, arena.published, t)
      case Some(s) => NoneOwnedBefore(serials, arena.published, s, t)
  {
    var p := arena.published;
    assert NoneOwned(serials, p[..0], t);
  }

  lemma WalkOneOn(serials: map<Addr, Serial>, a: Addr, arena: Arena, s: Addr, t: Thread)
    requires ListOk(serials, a, arena) && NoneOwnedBefore(serials, arena.published, s, t)
    ensures s in arena.published && s in serials
    ensures serials[s].owner != t ==>
      match serials[s].next
      case None => NoneOwned(serials, arena.published, t)
      case Some(n) => NoneOwnedBefore(serials, arena.published, n, t)
  {
    var p := arena.published;
    var k :| 0 <= k < |p| && p[k] == s && NoneOwned(serials, p[..k], t);
    if serials[s].owner != t {
      assert p[..k + 1] == p[..k] + [s];
      assert NoneOwned(serials, p[..k + 1], t);
      if k + 1 == |p| {
        assert p[..k + 1] == p;
      }
    }
  }

  /** Another thread does not notice new SerialArenas, nor changes to some that are not its own. */
  lemma SeesSerials(c: State, after: State, t: Thread)
    requires t in c.pcs && after.arenas == c.arenas && after.generator == c.generator
    requires forall s | s in c.serials ::
      s in after.serials && after.serials[s].arena == c.serials[s].arena && after.serials[s].owner == c.serials[s].owner
      && (c.serials[s].owner == t ==> after.serials[s] == c.serials[s])
    ensures Sees(c, after, t)
  {
  }

  lemma AllocateKeeps(c: State, t: Thread, at: Addr)
    requires Invariant(c) && t in c.pcs && c.pcs[t].NewBlock? && c.pcs[t].arena in c.arenas && at !in c.serials
    ensures Invariant(PushStep(c, t, at, false).value)
  {
    hide Invariant, Sees, ListOk, Kept, NoneOwned;
    var a := c.pcs[t].arena;
    var after := PushStep(c, t, at, false).value;
    Here(c, t);
    forall b | b in c.arenas
      ensures ListOk(after.serials, b, after.arenas[b])
    {
      ListOkMore(c.serials, b, c.arenas[b], at, Serial(a, t, None));
    }
    forall s | s in after.serials
      ensures Kept(after, s)
    {
      KeptMore(c, t, at, s);
    }
    forall u | u in c.pcs && u != t
      ensures Sees(c, after, u)
    {
      SeesSerials(c, after, u);
    }
    NoneOwnedMore(c.serials, a, c.arenas[a], at, Serial(a, t, None), t);
    ThreadStepKeeps(c, after, t);
  }

  lemma ListOkMore(serials: map<Addr, Serial>, a: Addr, arena: Arena, at: Addr, serial: Serial)
    requires ListOk(serials, a, arena) && at !in serials
    ensures ListOk(serials[at := serial], a, arena) && at !in arena.published
  {
  }

  lemma NoneOwnedMore(serials: map<Addr, Serial>, a: Addr, arena: Arena, at: Addr, serial: Serial, t: Thread)
    requires ListOk(serials, a, arena) && at !in serials && NoneOwned(serials, arena.published, t)
    ensures NoneOwned(serials[at := serial], arena.published, t) && at !in arena.published
  {
  }

  lemma KeptMore(c: State, t: Thread, at: Addr, s: Addr)
    requires t in c.pcs && c.pcs[t].NewBlock? && c.pcs[t].arena in c.arenas && at !in c.serials
    requires s != at ==> s in c.serials && Kept(c, s)
    ensures Kept(PushStep(c, t, at, false).value, s)
  {
  }

  /** A SerialArena that its owner has not published is in no list. */
  lemma PendingIsInNoList(c: State, t: Thread, a: Addr, s: Addr, b: Addr)
    requires Invariant(c) && a in c.arenas && b in c.arenas && Pending(c, t, a, s)
    ensures s !in c.arenas[b].published
  {
    assert ListOk(c.serials, b, c.arenas[b]);
  }

  lemma SetNextKeeps(c: State, t: Thread)
    requires Invariant(c) && t in c.pcs && c.pcs[t].SetNext? && c.pcs[t].arena in c.arenas
    ensures PushStep(c, t, 0, false).Some? && Invariant(PushStep(c, t, 0, false).value)
    ensures var s := c.pcs[t].mine; var after := PushStep(c, t, 0, false).value;
      s in after.serials && after.serials[s].next == c.pcs[t].head
  {
    hide Invariant, Sees, ListOk, Kept, NoneOwned;
    var a, s := c.pcs[t].arena, c.pcs[t].mine;
    Here(c, t);
    var after := PushStep(c, t, 0, false).value;
    forall b | b in c.arenas
      ensures ListOk(after.serials, b, after.arenas[b])
    {
      PendingIsInNoList(c, t, a, s, b);
      ListOkBut(c.serials, b, c.arenas[b], s, after.serials[s]);
    }
    forall x | x in after.serials
      ensures Kept(after, x)
    {
      KeptByGoto(c, after, t, x);
    }
    forall u | u in c.pcs && u != t
      ensures Sees(c, after, u)
    {
      SeesSerials(c, after, u);
    }
    NoneOwnedBut(c.serials, c.arenas[a].published, s, after.serials[s], t);
    ThreadStepKeeps(c, after, t);
  }

  lemma ListOkBut(serials: map<Addr, Serial>, a: Addr, arena: Arena, s: Addr, serial: Serial)
    requires ListOk(serials, a, arena) && s !in arena.published
    ensures ListOk(serials[s := serial], a, arena)
  {
  }

  lemma NoneOwnedBut(serials: map<Addr, Serial>, p: seq<Addr>, s: Addr, serial: Serial, t: Thread)
    requires NoneOwned(serials, p, t) && s !in p
    ensures NoneOwned(serials[s := serial], p, t)
  {
  }

  /** A thread that keeps hold of what it held loses nothing. */
  lemma KeptByGoto(c: State, after: State, t: Thread, s: Addr)
    requires s in c.serials && Kept(c, s) && t in c.pcs && t in after.pcs && after.pcs == c.pcs[t := after.pcs[t]]
    requires s in after.serials && after.serials[s].arena == c.serials[s].arena
    requires after.serials[s].owner == c.serials[s].owner
    requires forall a | a in c.arenas ::
      a in after.arenas && forall x | x in c.arenas[a].published :: x in after.arenas[a].published
    requires Holds(c.pcs[t], s) && c.serials[s].owner == t ==>
      (Holds(after.pcs[t], s) && after.pcs[t].arena == c.pcs[t].arena)
      || (c.pcs[t].arena in after.arenas && s in after.arenas[c.pcs[t].arena].published)
    ensures Kept(after, s)
  {
  }

  lemma PushKeeps(c: State, t: Thread)
    requires Invariant(c) && t in c.pcs && c.pcs[t].Cas? && c.pcs[t].arena in c.arenas
    requires c.arenas[c.pcs[t].arena].threads == c.pcs[t].head
    ensures Invariant(PushStep(c, t, 0, false).value)
    ensures var a, s := c.pcs[t].arena, c.pcs[t].mine; var after := PushStep(c, t, 0, false).value;
      && after.arenas[a].threads == Some(s) && after.arenas[a].published == [s] + c.arenas[a].published
      && after.pcs[t] == WriteCachedSerial(a, s)
  {
    hide Invariant, Sees, ListOk, Kept, NoneOwned;
    var a, s := c.pcs[t].arena, c.pcs[t].mine;
    Here(c, t);
    var after := PushStep(c, t, 0, false).value;
    PushedListOk(c.serials, a, c.arenas[a], s, t);
    forall x | x in after.serials
      ensures Kept(after, x)
    {
      KeptByGoto(c, after, t, x);
    }
    forall u | u in c.pcs && u != t
      ensures Sees(c, after, u)
    {
      SeesPush(c, after, a, s, u);
    }
    assert CacheOk(after, t);
    ThreadStepKeeps(c, after, t);
  }

  lemma SeesPush(c: State, after: State, a: Addr, s: Addr, u: Thread)
    requires u in c.pcs && a in c.arenas && s in c.serials && c.serials[s].owner != u
    requires after.serials == c.serials && after.generator == c.generator
    requires after.arenas == c.arenas[a := c.arenas[a].(threads := Some(s), published := [s] + c.arenas[a].published)]
    ensures Sees(c, after, u)
  {
  }

  lemma PushedListOk(serials: map<Addr, Serial>, a: Addr, arena: Arena, s: Addr, t: Thread)
    requires ListOk(serials, a, arena) && s in serials && serials[s].arena == a && serials[s].owner == t
    requires s !in arena.published && NoneOwned(serials, arena.published, t) && serials[s].next == arena.threads
    ensures ListOk(serials, a, arena.(threads := Some(s), published := [s] + arena.published))
  {
    var p, q := arena.published, [s] + arena.published;
    assert forall i | 0 <= i < |q| :: q[i] == if i == 0 then s else p[i - 1];
  }

  lemma PushStepKeeps(c: State, t: Thread, at: Addr, spurious: bool)
    requires Invariant(c) && t in c.pcs && !c.pcs[t].Idle? && c.pcs[t].arena in c.arenas
    requires PushStep(c, t, at, spurious).Some?
    ensures Invariant(PushStep(c, t, at, spurious).value)
  {
    hide Invariant, SharedOk, CacheOk, ListOk;
    Here(c, t);
    var pc := c.pcs[t];
    if pc.NewBlock? {
      AllocateKeeps(c, t, at);
    } else if pc.SetNext? {
      SetNextKeeps(c, t);
    } else if pc.Cas? && c.arenas[pc.arena].threads == pc.head && !spurious {
      PushKeeps(c, t);
    } else {
      GotoKeeps(c, t, PushStep(c, t, at, spurious).value.pcs[t]);
    }
  }

  lemma CacheStepKeeps(c: State, t: Thread)
    requires Invariant(c) && t in c.pcs && t in c.caches && !c.pcs[t].Idle? && c.pcs[t].arena in c.arenas
    requires CacheStep(c, t).Some?
    ensures Invariant(CacheStep(c, t).value)
  {
    hide Invariant, Sees, ListOk, Kept, NoneOwned, NoneOwnedBefore, Pending;
    Here(c, t);
    var a := c.pcs[t].arena;
    var after := CacheStep(c, t).value;
    forall x | x in after.serials
      ensures Kept(after, x)
    {
      KeptByGoto(c, after, t, x);
    }
    forall u | u in c.pcs && u != t
      ensures Sees(c, after, u)
    {
      SeesHint(c, after, u);
    }
    if c.pcs[t].WriteHint? {
      HintListOk(c.serials, a, c.arenas[a], c.pcs[t].mine);
    }
    CacheStepOwn(c, t);
    hide CacheOk, PcOk;
    ThreadStepKeeps(c, after, t);
  }

  lemma CacheStepOwn(c: State, t: Thread)
    requires Invariant(c) && t in c.pcs && t in c.caches && !c.pcs[t].Idle? && c.pcs[t].arena in c.arenas
    requires CacheStep(c, t).Some?
    ensures var after := CacheStep(c, t).value; t in after.caches && PcOk(after, t) && CacheOk(after, t)
  {
    hide ListOk, Kept, NoneOwned, NoneOwnedBefore, Pending;
    Here(c, t);
  }

  lemma SeesHint(c: State, after: State, u: Thread)
    requires u in c.pcs && after.serials == c.serials && after.generator == c.generator
    requires after.arenas.Keys == c.arenas.Keys
    requires forall a | a in c.arenas :: after.arenas[a] == c.arenas[a].(hint := after.arenas[a].hint)
    ensures Sees(c, after, u)
  {
  }

  lemma HintListOk(serials: map<Addr, Serial>, a: Addr, arena: Arena, s: Addr)
    requires ListOk(serials, a, arena) && s in arena.published
    ensures ListOk(serials, a, arena.(hint := Some(s)))
  {
  }

  lemma StartKeeps(c: State, t: Thread)
    requires Invariant(c) && t !in c.pcs
    ensures Invariant(Next(c, t, Start).value)
  {
    hide Sees, ListOk, Kept, PcOk;
    var after := Next(c, t, Start).value;
    forall s | s in after.serials
      ensures Kept(after, s)
    {
      StartKept(c, t, s);
    }
    forall u | u in c.pcs
      ensures PcOk(after, u) && CacheOk(after, u)
    {
      SeesSerials(c, after, u);
      OtherThreadKeeps(c, after, u);
    }
    IdleOk(after, t);
  }

  lemma StartKept(c: State, t: Thread, s: Addr)
    requires t !in c.pcs && s in c.serials && Kept(c, s)
    ensures Kept(Next(c, t, Start).value, s)
  {
  }

  /** A thread that ends is in no arena, so it holds nothing that is in no list. */
  lemma ExitKeeps(c: State, t: Thread)
    requires Invariant(c) && t in c.pcs && c.pcs[t].Idle?
    ensures Invariant(Outside(c, t, Exit).value)
  {
    hide Sees, ListOk, Kept, PcOk;
    var after := Outside(c, t, Exit).value;
    forall s | s in after.serials
      ensures Kept(after, s)
    {
      ExitKept(c, t, s);
    }
    forall u | u in after.pcs
      ensures PcOk(after, u) && CacheOk(after, u)
    {
      SeesSerials(c, after, u);
      OtherThreadKeeps(c, after, u);
    }
  }

  lemma ExitKept(c: State, t: Thread, s: Addr)
    requires t in c.pcs && c.pcs[t].Idle? && s in c.serials && Kept(c, s)
    ensures Kept(Outside(c, t, Exit).value, s)
  {
  }

  lemma IdleOk(c: State, t: Thread)
    requires t in c.pcs && t in c.caches && c.pcs[t].Idle?
    ensures PcOk(c, t)
  {
  }

  /** Freeing a quiescent arena: its SerialArenas are all in the list, and no thread is left with one of them. */
  lemma FreeKeeps(c: State, a: Addr)
    requires Invariant(c) && a in c.arenas && Quiescent(c, a)
    ensures Invariant(Free(c, a))
    ensures forall s | s in c.serials && c.serials[s].arena == a :: s !in Free(c, a).serials
  {
    hide Sees, Kept, PcOk;
    var after := Free(c, a);
    assert ListOk(c.serials, a, c.arenas[a]);
    forall b | b in after.arenas
      ensures ListOk(after.serials, b, after.arenas[b])
    {
      assert ListOk(c.serials, b, c.arenas[b]);
    }
    forall s | s in c.serials
      ensures s in c.arenas[a].published <==> c.serials[s].arena == a
      ensures s in after.serials ==> Kept(after, s)
    {
      FreeKept(c, a, s);
    }
    forall u | u in c.pcs
      ensures PcOk(after, u) && CacheOk(after, u)
    {
      SeesFree(c, after, a, u);
      OtherThreadKeeps(c, after, u);
    }
  }

  lemma FreeKept(c: State, a: Addr, s: Addr)
    requires a in c.arenas && Quiescent(c, a) && s in c.serials && Kept(c, s) && ListOk(c.serials, a, c.arenas[a])
    ensures s in c.arenas[a].published <==> c.serials[s].arena == a
    ensures c.serials[s].arena != a ==> Kept(Free(c, a), s)
  {
  }

  lemma SeesFree(c: State, after: State, a: Addr, u: Thread)
    requires a in c.arenas && Quiescent(c, a) && u in c.pcs && after == Free(c, a)
    requires forall s | s in c.serials :: s in c.arenas[a].published <==> c.serials[s].arena == a
    ensures Sees(c, after, u)
  {
  }

  /** Init on memory that no arena uses, with a SerialArena at an address that is free. */
  lemma InitKeeps(c: State, t: Thread, a: Addr, initial: Option<Addr>)
    requires Invariant(c) && t in c.pcs && c.pcs[t].Idle? && a !in c.arenas
    requires initial.Some? ==> initial.value !in c.serials
    ensures Invariant(Init(c, t, a, initial))
  {
    hide Sees, Kept, PcOk, ListOk;
    var after := Init(c, t, a, initial);
    forall b | b in after.arenas
      ensures ListOk(after.serials, b, after.arenas[b])
    {
      if b == a {
        NewListOk(after, t, a, initial);
      } else if initial.Some? {
        ListOkMore(c.serials, b, c.arenas[b], initial.value, Serial(a, t, None));
      }
    }
    forall s | s in after.serials
      ensures Kept(after, s)
    {
      InitKept(c, t, a, initial, s);
    }
    forall u | u in c.pcs && u != t
      ensures Sees(c, after, u)
    {
      SeesInit(c, t, a, initial, u);
    }
    InitOwn(c, t, a, initial);
    ThreadStepKeeps(c, after, t);
  }

  lemma NewListOk(c: State, t: Thread, a: Addr, initial: Option<Addr>)
    requires a in c.arenas && c.arenas[a].hint == None
    requires match initial
      case None => c.arenas[a].threads == None && c.arenas[a].published == []
      case Some(s) => c.arenas[a].threads == Some(s) && c.arenas[a].published == [s]
                      && s in c.serials && c.serials[s] == Serial(a, t, None)
    ensures ListOk(c.serials, a, c.arenas[a])
  {
  }

  lemma InitKept(c: State, t: Thread, a: Addr, initial: Option<Addr>, s: Addr)
    requires t in c.pcs && c.pcs[t].Idle? && a !in c.arenas && s in Init(c, t, a, initial).serials
    requires initial.Some? ==> initial.value !in c.serials
    requires s in c.serials ==> Kept(c, s)
    ensures Kept(Init(c, t, a, initial), s)
  {
  }

  lemma SeesInit(c: State, t: Thread, a: Addr, initial: Option<Addr>, u: Thread)
    requires t in c.pcs && u in c.pcs && a !in c.arenas && (initial.Some? ==> initial.value !in c.serials)
    ensures Sees(c, Init(c, t, a, initial), u)
  {
  }

  lemma InitOwn(c: State, t: Thread, a: Addr, initial: Option<Addr>)
    requires Invariant(c) && t in c.pcs && c.pcs[t].Idle? && a !in c.arenas
    requires initial.Some? ==> initial.value !in c.serials
    ensures var after := Init(c, t, a, initial); t in after.caches && PcOk(after, t) && CacheOk(after, t)
  {
    hide ListOk, Kept;
    Here(c, t);
  }

  lemma OutsideKeeps(c: State, t: Thread, step: Step)
    requires Invariant(c) && t in c.pcs && c.pcs[t].Idle? && Outside(c, t, step).Some?
    ensures Invariant(Outside(c, t, step).value)
  {
    hide Invariant, Init, Free;
    Here(c, t);
    match step {
      case Exit => ExitKeeps(c, t);
      case Call(a) => GotoKeeps(c, t, CheckCache(a));
      case Construct(a, initial) => InitKeeps(c, t, a, initial);
      case Reset(a, initial) =>
        FreeKeeps(c, a);
        FreeFrame(c, a);
        InitKeeps(Free(c, a), t, a, initial);
      case Destroy(a) => FreeKeeps(c, a);
      case _ =>
    }
  }

  lemma FreeFrame(c: State, a: Addr)
    requires a in c.arenas
    ensures a !in Free(c, a).arenas && Free(c, a).pcs == c.pcs && Free(c, a).caches == c.caches
  {
  }

  /** Every step of every thread keeps the invariant. */
  lemma NextKeeps(c: State, t: Thread, step: Step)
    requires Invariant(c) && Next(c, t, step).Some?
    ensures Invariant(Next(c, t, step).value)
  {
    hide Invariant, Outside, FastStep, SearchStep, PushStep, CacheStep;
    if step.Start? {
      StartKeeps(c, t);
    } else if c.pcs[t].Idle? {
      OutsideKeeps(c, t, step);
    } else {
      match c.pcs[t] {
        case CheckCache(_) => FastStepKeeps(c, t, step.chance);
        case LoadHint(_) => FastStepKeeps(c, t, step.chance);
        case CheckHint(_, _) => FastStepKeeps(c, t, step.chance);
        case LoadThreads(_) => SearchStepKeeps(c, t);
        case Walk(_, _) => SearchStepKeeps(c, t);
        case NewBlock(_) => PushStepKeeps(c, t, step.at, step.chance);
        case LoadHead(_, _) => PushStepKeeps(c, t, step.at, step.chance);
        case SetNext(_, _, _) => PushStepKeeps(c, t, step.at, step.chance);
        case Cas(_, _, _) => PushStepKeeps(c, t, step.at, step.chance);
        case _ => CacheStepKeeps(c, t);
      }
    }
  }

  /** A run: each state follows from the one before by one step of one thread. */
  ghost predicate Run(states: seq<State>)
  {
    && states != [] && states[0] == INITIAL
    && forall i | 0 < i < |states| :: Follows(states[i - 1], states[i])
  }

  ghost predicate Follows(c: State, after: State)
  {
    exists t, step :: Next(c, t, step) == Some(after)
  }

  lemma {:induction false} RunKeeps(states: seq<State>, i: nat)
    requires Run(states) && i < |states|
    ensures Invariant(states[i])
  {
    hide Next, Invariant;
    if i == 0 {
      InitialOk();
    } else {
      RunKeeps(states, i - 1);
      assert Follows(states[i - 1], states[i]);
      var t, step :| Next(states[i - 1], t, step) == Some(states[i]);
      NextKeeps(states[i - 1], t, step);
    }
  }

  lemma InitialOk()
    ensures Invariant(INITIAL)
  {
  }

  /** In every state of every run, what GetSerialArena returns is the caller's own, live, and in the arena's list. */
  lemma ReturnsCallersOwn(states: seq<State>, i: nat, t: Thread)
    requires Run(states) && i < |states| && t in states[i].pcs && states[i].pcs[t].Returned?
    ensures var c := states[i]; var pc := c.pcs[t];
      pc.arena in c.arenas && pc.mine in c.arenas[pc.arena].published
      && pc.mine in c.serials && c.serials[pc.mine] == Serial(pc.arena, t, c.serials[pc.mine].next)
  {
    RunKeeps(states, i);
    Here(states[i], t);
  }

  /** A cache that matches an arena at the moment of the test leads to the thread's own SerialArena in it. */
  lemma StaleCacheIsNeverUsed(states: seq<State>, i: nat, t: Thread, a: Addr)
    requires Run(states) && i < |states| && t in states[i].pcs && t in states[i].caches && a in states[i].arenas
    requires states[i].caches[t].id == states[i].arenas[a].id && !states[i].pcs[t].WriteCachedId?
    ensures var c := states[i]; var s := c.caches[t].serial;
      s.Some? && s.value in c.arenas[a].published && s.value in c.serials && c.serials[s.value].owner == t
  {
    RunKeeps(states, i);
    Here(states[i], t);
  }

  /** The list is acyclic and has at most one SerialArena of each thread, and the hint is in it. */
  lemma OneSerialArenaPerThread(states: seq<State>, i: nat, a: Addr)
    requires Run(states) && i < |states| && a in states[i].arenas
    ensures var c := states[i]; var p := c.arenas[a].published;
      && c.arenas[a].threads == At(p, 0)
      && (forall k | 0 <= k < |p| :: p[k] in c.serials && c.serials[p[k]].next == At(p, k + 1))
      && (forall j, k | 0 <= j < k < |p| :: p[j] != p[k] && c.serials[p[j]].owner != c.serials[p[k]].owner)
      && (c.arenas[a].hint.Some? ==> c.arenas[a].hint.value in p)
  {
    RunKeeps(states, i);
  }

  /** A live SerialArena is in its arena's list, or its owner is about to push it; a thread has one per arena. */
  lemma NoSerialArenaIsLost(states: seq<State>, i: nat, s: Addr, r: Addr)
    requires Run(states) && i < |states| && s in states[i].serials && r in states[i].serials
    ensures Kept(states[i], s)
    ensures (states[i].serials[s].arena == states[i].serials[r].arena
             && states[i].serials[s].owner == states[i].serials[r].owner) ==> s == r
  {
    hide Run, Next;
    RunKeeps(states, i);
    OnePerThread(states[i], s, r);
  }

  lemma OnePerThread(c: State, s: Addr, r: Addr)
    requires Invariant(c) && s in c.serials && r in c.serials
    ensures Kept(c, s)
    ensures (c.serials[s].arena == c.serials[r].arena && c.serials[s].owner == c.serials[r].owner) ==> s == r
  {
    var t := c.serials[s].owner;
    LiveIsKept(c, s);
    LiveIsKept(c, r);
    hide Invariant, SharedOk, CacheOk;
    if t in c.pcs {
      Here(c, t);
    }
    OneOfTwo(c, s, r);
  }

  lemma LiveIsKept(c: State, s: Addr)
    requires Invariant(c) && s in c.serials
    ensures Kept(c, s) && ListOk(c.serials, c.serials[s].arena, c.arenas[c.serials[s].arena])
  {
  }

  lemma OneOfTwo(c: State, s: Addr, r: Addr)
    requires s in c.serials && r in c.serials && Kept(c, s) && Kept(c, r)
    requires ListOk(c.serials, c.serials[s].arena, c.arenas[c.serials[s].arena])
    requires var t := c.serials[s].owner; t in c.pcs ==> t in c.caches && PcOk(c, t)
    ensures (c.serials[s].arena == c.serials[r].arena && c.serials[s].owner == c.serials[r].owner) ==> s == r
  {
    hide NoneOwnedBefore;
  }

  /** No thread is ever stopped inside GetSerialArena: every SerialArena it reads on the way is live. */
  lemma ReadsAreLive(states: seq<State>, i: nat, t: Thread, at: Addr, chance: bool)
    requires Run(states) && i < |states| && t in states[i].pcs && !states[i].pcs[t].Idle? && at !in states[i].serials
    ensures Next(states[i], t, Advance(at, chance)).Some?
  {
    hide Run, Kept;
    RunKeeps(states, i);
    InsideIsEnabled(states[i], t, at, chance);
  }

  lemma InsideIsEnabled(c: State, t: Thread, at: Addr, chance: bool)
    requires Invariant(c) && t in c.pcs && !c.pcs[t].Idle? && at !in c.serials
    ensures Next(c, t, Advance(at, chance)).Some?
  {
    hide Invariant, SharedOk;
    Here(c, t);
  }

  /** Between two states in which the arena has the same id, its list has only grown, and only at the head. */
  lemma {:induction false} ListsOnlyGrow(states: seq<State>, i: nat, j: nat, a: Addr)
    requires Run(states) && i <= j < |states| && a in states[i].arenas
    ensures states[i].arenas[a].id < states[j].generator
    ensures a in states[j].arenas && states[j].arenas[a].id == states[i].arenas[a].id ==>
      EndsWith(states[j].arenas[a].published, states[i].arenas[a].published)
  {
    hide Next, Invariant;
    RunKeeps(states, i);
    IdsAreOld(states[i], a);
    if i == j {
    } else {
      ListsOnlyGrow(states, i, j - 1, a);
      assert Follows(states[j - 1], states[j]);
      var t, step :| Next(states[j - 1], t, step) == Some(states[j]);
      ListsGrowByOne(states[j - 1], t, step, a);
    }
  }

  ghost predicate EndsWith(longer: seq<Addr>, p: seq<Addr>)
  {
    |longer| >= |p| && longer[|longer| - |p|..] == p
  }

  lemma IdsAreOld(c: State, a: Addr)
    requires Invariant(c) && a in c.arenas
    ensures c.arenas[a].id < c.generator
  {
  }

  /** One step: a list stays, or gains one entry at its head, or its arena gets an id that was never used. */
  lemma ListsGrowByOne(c: State, t: Thread, step: Step, a: Addr)
    requires Next(c, t, step).Some?
    ensures var after := Next(c, t, step).value;
      && c.generator <= after.generator
      && (a in after.arenas ==>
            after.arenas[a].id == c.generator
            || (a in c.arenas && after.arenas[a].id == c.arenas[a].id
                && (after.arenas[a].published == c.arenas[a].published
                    || (after.arenas[a].published != [] && after.arenas[a].published[1..] == c.arenas[a].published))))
  {
  }
}
