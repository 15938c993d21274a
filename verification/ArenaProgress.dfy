/** What GetSerialArena achieves: every push succeeds unless disturbed, and every call answers in few steps. */
module ArenaProgress {
  import opened Prelude
  import opened ArenaThreads

  ghost predicate Inside(c: State, t: Thread)
  {
    t in c.pcs && !c.pcs[t].Idle?
  }

  ghost predicate Answered(c: State, t: Thread)
  {
    t in c.pcs && c.pcs[t].Returned?
  }

  /**
   * A thread that finds the head it has read publishes its SerialArena, in front of all the others; nothing else
   * changes, and the thread is past the loop.
   */
  lemma CasPublishes(states: seq<State>, i: nat, t: Thread, at: Addr)
    requires Run(states) && i < |states| && t in states[i].pcs && states[i].pcs[t].Cas?
    requires states[i].pcs[t].arena in states[i].arenas
    requires states[i].arenas[states[i].pcs[t].arena].threads == states[i].pcs[t].head
    ensures var c := states[i]; var a, s := c.pcs[t].arena, c.pcs[t].mine;
      var next := Next(c, t, Advance(at, false));
      && next.Some? && a in next.value.arenas
      && next.value.arenas[a] == Arena(c.arenas[a].id, Some(s), c.arenas[a].hint, [s] + c.arenas[a].published)
      && next.value.arenas - {a} == c.arenas - {a} && next.value.generator == c.generator
      && next.value.serials == c.serials && next.value.caches == c.caches
      && next.value.pcs == c.pcs[t := WriteCachedSerial(a, s)]
  {
    hide Run, Next;
    RunKeeps(states, i);
    Here(states[i], t);
    hide Invariant, SharedOk, PcOk, CacheOk, ListOk;
    CasPublishesHere(states[i], t, at);
  }

  lemma CasPublishesHere(c: State, t: Thread, at: Addr)
    requires t in c.pcs && t in c.caches && c.pcs[t].Cas? && c.pcs[t].arena in c.arenas
    requires c.arenas[c.pcs[t].arena].threads == c.pcs[t].head
    ensures var a, s := c.pcs[t].arena, c.pcs[t].mine;
      var next := Next(c, t, Advance(at, false));
      && next.Some? && a in next.value.arenas
      && next.value.arenas[a] == Arena(c.arenas[a].id, Some(s), c.arenas[a].hint, [s] + c.arenas[a].published)
      && next.value.arenas - {a} == c.arenas - {a} && next.value.generator == c.generator
      && next.value.serials == c.serials && next.value.caches == c.caches
      && next.value.pcs == c.pcs[t := WriteCachedSerial(a, s)]
  {
  }

  /** A thread that does not find it, or fails for no reason, has read the present head when it tries again. */
  lemma FailedCasReloads(states: seq<State>, i: nat, t: Thread, at: Addr, spurious: bool)
    requires Run(states) && i < |states| && t in states[i].pcs && states[i].pcs[t].Cas?
    requires states[i].pcs[t].arena in states[i].arenas
    requires spurious || states[i].arenas[states[i].pcs[t].arena].threads != states[i].pcs[t].head
    ensures var c := states[i]; var a, s := c.pcs[t].arena, c.pcs[t].mine;
      var next := Next(c, t, Advance(at, spurious));
      next == Some(c.(pcs := c.pcs[t := SetNext(a, s, c.arenas[a].threads)]))
  {
    hide Run;
    RunKeeps(states, i);
    Here(states[i], t);
  }

  /** How many entries of the list there are from `s` on. */
  function From(p: seq<Addr>, s: Addr): (r: nat)
    ensures r <= |p| && (s in p ==> r > 0)
  {
    if p == [] then 0 else if p[0] == s then |p| else From(p[1..], s)
  }

  lemma {:induction false} FromIndex(p: seq<Addr>, k: nat)
    requires k < |p| && forall i, j | 0 <= i < j < |p| :: p[i] != p[j]
    ensures From(p, p[k]) == |p| - k
  {
    if k == 0 {
    } else {
      FromIndex(p[1..], k - 1);
    }
  }

  /** How many more steps the thread can need to answer. */
  function StepsLeft(c: State, t: Thread): nat
    requires t in c.pcs && !c.pcs[t].Idle? && c.pcs[t].arena in c.arenas
  {
    var arena := c.arenas[c.pcs[t].arena];
    var n := |arena.published|;
    match c.pcs[t]
    case CheckCache(_) => n + 12
    case LoadHint(_) => n + 11
    case CheckHint(_, _) => n + 10
    case LoadThreads(_) => n + 9
    case Walk(_, Some(s)) => From(arena.published, s) + 8
    case Walk(_, None) => 8
    case NewBlock(_) => 7
    case LoadHead(_, _) => 6
    case SetNext(_, _, head) => if head == arena.threads then 5 else 7
    case Cas(_, _, head) => if head == arena.threads then 4 else 6
    case WriteCachedSerial(_, _) => 3
    case WriteCachedId(_, _) => 2
    case WriteHint(_, _) => 1
    case Returned(_, _) => 0
  }

  /** In `after` the thread is still in the same call, nearer to its answer, and only a push has changed the list. */
  ghost predicate Closer(c: State, after: State, t: Thread)
    requires Inside(c, t) && c.pcs[t].arena in c.arenas
  {
    var a := c.pcs[t].arena;
    && Inside(after, t) && after.pcs[t].arena == a && a in after.arenas
    && StepsLeft(after, t) < StepsLeft(c, t) && after.arenas[a].id == c.arenas[a].id
    && (after.arenas[a].published == c.arenas[a].published || Pushes(c, after, t))
    && (Past(c.pcs[t]) ==>
          Past(after.pcs[t]) && after.pcs[t].mine == c.pcs[t].mine
          && after.arenas[a].published == c.arenas[a].published)
    && SameOwners(c, after) && (Remembers(c, t) ==> Remembers(after, t))
  }

  /** Past the push: what is left is to cache the SerialArena and to return it. */
  predicate Past(pc: Pc)
  {
    pc.WriteCachedSerial? || pc.WriteCachedId? || pc.WriteHint? || pc.Returned?
  }

  ghost predicate SameOwners(c: State, after: State)
  {
    forall s | s in c.serials ::
      s in after.serials && after.serials[s].arena == c.serials[s].arena && after.serials[s].owner == c.serials[s].owner
  }

  /** The hint has not changed since it was loaded; what has been cached so far is still there. */
  ghost predicate Remembers(c: State, t: Thread)
    requires t in c.pcs && !c.pcs[t].Idle? && c.pcs[t].arena in c.arenas
  {
    var arena := c.arenas[c.pcs[t].arena];
    t in c.caches &&
    match c.pcs[t]
    case CheckHint(_, hint) => hint == arena.hint
    case WriteCachedId(_, s) => c.caches[t].serial == Some(s)
    case WriteHint(_, s) => c.caches[t] == Cache(arena.id, Some(s))
    case Returned(_, s) => c.caches[t] == Cache(arena.id, Some(s)) || arena.hint == Some(s)
    case _ => true
  }

  /** One undisturbed step brings the thread closer. */
  lemma StepGetsCloser(c: State, t: Thread, at: Addr)
    requires Invariant(c) && Inside(c, t) && !Answered(c, t) && at !in c.serials
    ensures c.pcs[t].arena in c.arenas && Next(c, t, Advance(at, false)).Some?
    ensures var after := Next(c, t, Advance(at, false)).value; Invariant(after) && Closer(c, after, t)
  {
    InsideIsEnabled(c, t, at, false);
    NextKeeps(c, t, Advance(at, false));
    Here(c, t);
    if c.pcs[t].Walk? && c.pcs[t].serial.Some? {
      WalkShortens(c, t);
    }
    hide Invariant, SharedOk, CacheOk, PcOk, ListOk, Closer, FastStep, SearchStep, PushStep, CacheStep;
    match c.pcs[t] {
      case CheckCache(_) => FastIsCloser(c, t);
      case LoadHint(_) => FastIsCloser(c, t);
      case CheckHint(_, _) => FastIsCloser(c, t);
      case LoadThreads(_) => SearchIsCloser(c, t);
      case Walk(_, _) => SearchIsCloser(c, t);
      case NewBlock(_) => PushIsCloser(c, t, at);
      case LoadHead(_, _) => PushIsCloser(c, t, at);
      case SetNext(_, _, _) => PushIsCloser(c, t, at);
      case Cas(_, _, _) => PushIsCloser(c, t, at);
      case _ => CacheIsCloser(c, t);
    }
  }

  lemma FastIsCloser(c: State, t: Thread)
    requires t in c.pcs && t in c.caches && (c.pcs[t].CheckCache? || c.pcs[t].LoadHint? || c.pcs[t].CheckHint?)
    requires c.pcs[t].arena in c.arenas && FastStep(c, t, false).Some?
    ensures Closer(c, FastStep(c, t, false).value, t)
  {
  }

  lemma SearchIsCloser(c: State, t: Thread)
    requires t in c.pcs && (c.pcs[t].LoadThreads? || c.pcs[t].Walk?)
    requires c.pcs[t].arena in c.arenas && SearchStep(c, t).Some?
    requires c.pcs[t].Walk? && c.pcs[t].serial.Some? ==>
      var p, s := c.arenas[c.pcs[t].arena].published, c.pcs[t].serial.value;
      s in p && s in c.serials && (c.serials[s].next.Some? ==> From(p, c.serials[s].next.value) < From(p, s))
    ensures Closer(c, SearchStep(c, t).value, t)
  {
  }

  lemma PushIsCloser(c: State, t: Thread, at: Addr)
    requires t in c.pcs && (c.pcs[t].NewBlock? || c.pcs[t].LoadHead? || c.pcs[t].SetNext? || c.pcs[t].Cas?)
    requires c.pcs[t].arena in c.arenas && PushStep(c, t, at, false).Some?
    ensures Closer(c, PushStep(c, t, at, false).value, t)
  {
  }

  lemma CacheIsCloser(c: State, t: Thread)
    requires t in c.pcs && t in c.caches
    requires c.pcs[t].WriteCachedSerial? || c.pcs[t].WriteCachedId? || c.pcs[t].WriteHint?
    requires c.pcs[t].arena in c.arenas && CacheStep(c, t).Some?
    ensures Closer(c, CacheStep(c, t).value, t)
  {
  }

  /** The thread's SerialArena becomes the head of the list, in which it had none. */
  ghost predicate Pushes(c: State, after: State, t: Thread)
    requires Inside(c, t) && c.pcs[t].arena in c.arenas
  {
    var a := c.pcs[t].arena;
    && c.pcs[t].Cas? && a in after.arenas && t in after.pcs && after.pcs[t] == WriteCachedSerial(a, c.pcs[t].mine)
    && after.arenas[a].published == [c.pcs[t].mine] + c.arenas[a].published
  }

  lemma WalkShortens(c: State, t: Thread)
    requires Invariant(c) && t in c.pcs && c.pcs[t].Walk? && c.pcs[t].serial.Some?
    ensures var p, s := c.arenas[c.pcs[t].arena].published, c.pcs[t].serial.value;
      s in p && s in c.serials && (c.serials[s].next.Some? ==> From(p, c.serials[s].next.value) < From(p, s))
  {
    Here(c, t);
    var a := c.pcs[t].arena;
    var p, s := c.arenas[a].published, c.pcs[t].serial.value;
    var k :| 0 <= k < |p| && p[k] == s && NoneOwned(c.serials, p[..k], t);
    FromIndex(p, k);
    if k + 1 < |p| {
      FromIndex(p, k + 1);
    }
  }

  /** Steps of one thread inside GetSerialArena, with no other thread between them and no spurious failure. */
  ghost predicate Alone(cs: seq<State>, t: Thread)
  {
    cs != [] && forall i | 0 < i < |cs| :: AloneStep(cs[i - 1], cs[i], t)
  }

  ghost predicate AloneStep(c: State, after: State, t: Thread)
  {
    exists at :: at !in c.serials && Next(c, t, Advance(at, false)) == Some(after)
  }

  /** What has happened to the thread and its arena between two states of one call. */
  ghost predicate SameCall(c: State, after: State, t: Thread)
    requires Inside(c, t) && c.pcs[t].arena in c.arenas
  {
    var a := c.pcs[t].arena;
    && Inside(after, t) && after.pcs[t].arena == a && a in after.arenas && after.arenas[a].id == c.arenas[a].id
    && SameOwners(c, after) && (Remembers(c, t) ==> Remembers(after, t))
    && (after.arenas[a].published == c.arenas[a].published
        || (Past(after.pcs[t]) && after.arenas[a].published == [after.pcs[t].mine] + c.arenas[a].published))
  }

  lemma SameCallStep(c: State, d: State, after: State, t: Thread)
    requires Inside(c, t) && c.pcs[t].arena in c.arenas && SameCall(c, d, t) && Closer(d, after, t)
    ensures SameCall(c, after, t)
  {
    hide Remembers;
  }

  /** However the fresh addresses are chosen, a call that runs alone comes nearer to its answer with each step. */
  lemma {:induction false} AloneComesCloser(cs: seq<State>, t: Thread, k: nat)
    requires Alone(cs, t) && k < |cs| && Invariant(cs[0]) && Inside(cs[0], t)
    requires forall j | 0 <= j < k :: !Answered(cs[j], t)
    ensures cs[0].pcs[t].arena in cs[0].arenas && Invariant(cs[k]) && SameCall(cs[0], cs[k], t)
    ensures StepsLeft(cs[k], t) + k <= StepsLeft(cs[0], t)
  {
    hide Invariant, SharedOk, PcOk, CacheOk, SameCall, Closer, StepsLeft, Next, Remembers;
    Here(cs[0], t);
    if k == 0 {
      CallBegins(cs[0], t);
    } else {
      AloneComesCloser(cs, t, k - 1);
      SameCallIsInside(cs[0], cs[k - 1], t);
      assert AloneStep(cs[k - 1], cs[k], t);
      var at :| at !in cs[k - 1].serials && Next(cs[k - 1], t, Advance(at, false)) == Some(cs[k]);
      StepGetsCloser(cs[k - 1], t, at);
      CloserIsLess(cs[k - 1], cs[k], t);
      SameCallStep(cs[0], cs[k - 1], cs[k], t);
      SameCallIsInside(cs[0], cs[k], t);
    }
  }

  lemma CallBegins(c: State, t: Thread)
    requires Inside(c, t) && c.pcs[t].arena in c.arenas
    ensures SameCall(c, c, t)
  {
  }

  lemma SameCallIsInside(c: State, after: State, t: Thread)
    requires Inside(c, t) && c.pcs[t].arena in c.arenas && SameCall(c, after, t)
    ensures Inside(after, t) && after.pcs[t].arena in after.arenas
  {
  }

  lemma CloserIsLess(c: State, after: State, t: Thread)
    requires Inside(c, t) && c.pcs[t].arena in c.arenas && Closer(c, after, t)
    ensures Inside(after, t) && after.pcs[t].arena in after.arenas && StepsLeft(after, t) < StepsLeft(c, t)
  {
  }

  /**
   * The answer to the call that is under way in `c`: a live SerialArena of the thread's own, in the arena's list. If
   * the thread had one in the list it is that one, and the list is as it was; if not, it is the new head.
   */
  ghost predicate Answers(c: State, after: State, t: Thread)
    requires Inside(c, t) && c.pcs[t].arena in c.arenas
  {
    var a := c.pcs[t].arena;
    && Answered(after, t) && after.pcs[t].arena == a && a in after.arenas && after.arenas[a].id == c.arenas[a].id
    && var s, p, q := after.pcs[t].mine, c.arenas[a].published, after.arenas[a].published;
    && s in after.serials && after.serials[s].arena == a && after.serials[s].owner == t && s in q
    && (if exists x :: x in p && x in c.serials && c.serials[x].owner == t
        then q == p && s in c.serials && c.serials[s].owner == t
        else q == [s] + p)
  }

  lemma AnswerIsOwn(c: State, after: State, t: Thread)
    requires Invariant(c) && Invariant(after) && Inside(c, t) && c.pcs[t].arena in c.arenas
    requires SameCall(c, after, t) && Answered(after, t)
    ensures Answers(c, after, t)
  {
    Here(c, t);
    Here(after, t);
    var a := c.pcs[t].arena;
    var s, p, q := after.pcs[t].mine, c.arenas[a].published, after.arenas[a].published;
    hide Invariant, SharedOk, CacheOk, Remembers;
    assert ListOk(after.serials, a, after.arenas[a]) && Own(after, t, a, s);
    assert ListOk(c.serials, a, c.arenas[a]);
    if x :| x in p && x in c.serials && c.serials[x].owner == t {
      assert after.serials[x].owner == t;
      if q != p {
        NewHeadIsOnly(after.serials, a, after.arenas[a], s, p, x);
      }
    }
  }

  lemma NewHeadIsOnly(serials: map<Addr, Serial>, a: Addr, arena: Arena, s: Addr, p: seq<Addr>, x: Addr)
    requires ListOk(serials, a, arena) && arena.published == [s] + p && x in p
    ensures x in serials && s in serials && serials[x].owner != serials[s].owner
  {
    var j :| 0 <= j < |p| && p[j] == x;
    assert arena.published[0] == s && arena.published[j + 1] == x;
  }

  lemma OneOwnOnly(serials: map<Addr, Serial>, a: Addr, arena: Arena, s: Addr, x: Addr)
    requires ListOk(serials, a, arena) && s in arena.published && x in arena.published
    ensures s in serials && x in serials && (serials[s].owner == serials[x].owner ==> s == x)
  {
  }

  /**
   * From any state of any run in which a thread is inside GetSerialArena, on its own it answers within a bound in the
   * length of the list, however the fresh addresses are chosen.
   */
  lemma CallAnswers(states: seq<State>, i: nat, cs: seq<State>, t: Thread)
    requires Run(states) && i < |states| && cs != [] && cs[0] == states[i] && Inside(states[i], t) && Alone(cs, t)
    requires states[i].pcs[t].arena in states[i].arenas ==>
      |cs| > |states[i].arenas[states[i].pcs[t].arena].published| + 12
    ensures states[i].pcs[t].arena in states[i].arenas
    ensures exists k :: 0 <= k < |cs| && k <= |states[i].arenas[states[i].pcs[t].arena].published| + 12
                        && Answers(states[i], cs[k], t)
  {
    hide Run, Answers, Alone, Invariant, SharedOk, PcOk, CacheOk, SameCall;
    RunKeeps(states, i);
    Here(states[i], t);
    var bound := |states[i].arenas[states[i].pcs[t].arena].published| + 12;
    if k :| 0 <= k <= bound && Answered(cs[k], t) && forall j | 0 <= j < k :: !Answered(cs[j], t) {
      AloneComesCloser(cs, t, k);
      AnswerIsOwn(cs[0], cs[k], t);
    } else {
      NeverAnswered(cs, t, bound);
      AloneComesCloser(cs, t, bound);
      SameCallIsInside(cs[0], cs[bound], t);
      NothingLeft(cs[bound], t);
    }
  }

  lemma {:induction false} NeverAnswered(cs: seq<State>, t: Thread, n: nat)
    requires n < |cs|
    requires forall k | 0 <= k <= n && Answered(cs[k], t) :: exists j :: 0 <= j < k && Answered(cs[j], t)
    ensures forall k | 0 <= k <= n :: !Answered(cs[k], t)
  {
    if n == 0 {
    } else {
      NeverAnswered(cs, t, n - 1);
    }
  }

  lemma NothingLeft(c: State, t: Thread)
    requires Inside(c, t) && c.pcs[t].arena in c.arenas && StepsLeft(c, t) == 0
    ensures Answered(c, t)
  {
  }

  /** An address above all of a set. */
  ghost function Above(s: set<Addr>): (r: Addr)
    ensures forall x | x in s :: x < r
  {
    if s == {} then 0
    else
      var x :| x in s;
      var r := Above(s - {x});
      assert s == (s - {x}) + {x};
      if x < r then r else x + 1
  }

  lemma {:induction false} RunAlone(c: State, t: Thread) returns (cs: seq<State>)
    requires Invariant(c) && Inside(c, t) && c.pcs[t].arena in c.arenas
    ensures Alone(cs, t) && cs[0] == c && |cs| <= StepsLeft(c, t) + 1
    ensures Answered(cs[|cs| - 1], t) && forall j | 0 <= j < |cs| - 1 :: !Answered(cs[j], t)
    decreases StepsLeft(c, t)
  {
    hide Invariant, SharedOk, PcOk, CacheOk, SameCall, Closer, StepsLeft, Next, Remembers;
    if Answered(c, t) {
      cs := [c];
    } else {
      var at := Above(c.serials.Keys);
      StepGetsCloser(c, t, at);
      var d := Next(c, t, Advance(at, false)).value;
      CloserIsLess(c, d, t);
      var rest := RunAlone(d, t);
      cs := [c] + rest;
      assert AloneStep(c, d, t);
      forall i | 1 < i < |cs|
        ensures AloneStep(cs[i - 1], cs[i], t)
      {
        assert cs[i - 1] == rest[i - 2] && cs[i] == rest[i - 1];
      }
      assert forall j | 0 < j < |cs| - 1 :: cs[j] == rest[j - 1];
    }
  }

  /** There always is such a run: the thread is not stopped before it has its answer. */
  lemma AnswerIsReached(states: seq<State>, i: nat, t: Thread) returns (cs: seq<State>)
    requires Run(states) && i < |states| && Inside(states[i], t)
    ensures cs != [] && Alone(cs, t) && cs[0] == states[i] && states[i].pcs[t].arena in states[i].arenas
    ensures |cs| <= |states[i].arenas[states[i].pcs[t].arena].published| + 13
    ensures Answers(states[i], cs[|cs| - 1], t)
  {
    hide Run, Answers, Alone, Invariant, SharedOk, PcOk, CacheOk, SameCall;
    RunKeeps(states, i);
    Here(states[i], t);
    cs := RunAlone(states[i], t);
    AloneIsSome(cs, t);
    AloneComesCloser(cs, t, |cs| - 1);
    AnswerIsOwn(cs[0], cs[|cs| - 1], t);
  }

  lemma AloneIsSome(cs: seq<State>, t: Thread)
    requires Alone(cs, t)
    ensures cs != []
  {
  }

  /** A call that ran alone from its beginning leaves the answer in the thread's cache, or has it in the hint. */
  lemma AnswerIsRemembered(states: seq<State>, i: nat, cs: seq<State>, t: Thread, k: nat)
    requires Run(states) && i < |states| && cs != [] && cs[0] == states[i] && Inside(states[i], t) && Alone(cs, t)
    requires states[i].pcs[t].CheckCache? || states[i].pcs[t].LoadHint? || states[i].pcs[t].LoadThreads?
    requires k < |cs| && Answered(cs[k], t) && forall j | 0 <= j < k :: !Answered(cs[j], t)
    ensures var pc := cs[k].pcs[t];
      pc.arena in cs[k].arenas && t in cs[k].caches
      && (cs[k].caches[t] == Cache(cs[k].arenas[pc.arena].id, Some(pc.mine))
          || cs[k].arenas[pc.arena].hint == Some(pc.mine))
  {
    hide Run, Invariant, SharedOk, PcOk, CacheOk;
    RunKeeps(states, i);
    Here(states[i], t);
    AloneComesCloser(cs, t, k);
  }

  /** Then the next call, if nothing comes between, answers the same in at most three steps. */
  lemma RememberedAnswerIsFast(states: seq<State>, i: nat, t: Thread, s: Addr, at: Addr)
    requires Run(states) && i < |states| && t in states[i].pcs && t in states[i].caches
    requires states[i].pcs[t].CheckCache? && states[i].pcs[t].arena in states[i].arenas
    requires var c := states[i]; var arena := c.arenas[c.pcs[t].arena];
      && s in c.serials && c.serials[s].owner == t && s in arena.published
      && (c.caches[t] == Cache(arena.id, Some(s)) || arena.hint == Some(s))
    ensures var c := states[i]; var a := c.pcs[t].arena;
      var first := Next(c, t, Advance(at, false));
      first == Some(c.(pcs := c.pcs[t := Returned(a, s)]))
      || (first.Some? && var second := Next(first.value, t, Advance(at, false));
          second.Some? && Next(second.value, t, Advance(at, false)) == Some(c.(pcs := c.pcs[t := Returned(a, s)])))
  {
    hide Run, Next;
    RunKeeps(states, i);
    var c := states[i];
    var a := c.pcs[t].arena;
    Here(c, t);
    if c.caches[t].id == c.arenas[a].id {
      OneOwnOnly(c.serials, a, c.arenas[a], s, c.caches[t].serial.value);
    }
    hide Invariant, SharedOk, PcOk, CacheOk, ListOk;
    FastAnswer(c, t, s, at);
  }

  lemma FastAnswer(c: State, t: Thread, s: Addr, at: Addr)
    requires t in c.pcs && t in c.caches && c.pcs[t].CheckCache? && c.pcs[t].arena in c.arenas
    requires s in c.serials && c.serials[s].owner == t
    requires var arena := c.arenas[c.pcs[t].arena];
      if c.caches[t].id == arena.id then c.caches[t].serial == Some(s) else arena.hint == Some(s)
    ensures var a := c.pcs[t].arena;
      var first := Next(c, t, Advance(at, false));
      first == Some(c.(pcs := c.pcs[t := Returned(a, s)]))
      || (first.Some? && var second := Next(first.value, t, Advance(at, false));
          second.Some? && Next(second.value, t, Advance(at, false)) == Some(c.(pcs := c.pcs[t := Returned(a, s)])))
  {
    var a := c.pcs[t].arena;
    var loads, checks := c.(pcs := c.pcs[t := LoadHint(a)]), c.(pcs := c.pcs[t := CheckHint(a, Some(s))]);
    if c.caches[t].id != c.arenas[a].id {
      assert Next(c, t, Advance(at, false)) == Some(loads);
      assert loads.pcs[t := CheckHint(a, Some(s))] == checks.pcs;
      assert Next(loads, t, Advance(at, false)) == Some(checks);
      assert checks.pcs[t := Returned(a, s)] == c.pcs[t := Returned(a, s)];
    }
  }

  /** In `after` the arena at `a` has a new life: an id never used, and at most the initial SerialArena of thread t. */
  ghost predicate Begins(c: State, after: State, t: Thread, a: Addr, initial: Option<Addr>)
  {
    && a in after.arenas && after.arenas[a].hint == None
    && (forall b | b in c.arenas :: c.arenas[b].id < after.arenas[a].id)
    && (forall u | u in c.caches :: c.caches[u].id < after.arenas[a].id)
    && (forall b | b in c.arenas && b != a :: b in after.arenas && after.arenas[b] == c.arenas[b])
    && after.arenas.Keys == c.arenas.Keys + {a} && after.caches == c.caches
    && (match initial
        case None => after.arenas[a].published == [] && after.pcs == c.pcs
        case Some(s) =>
          && after.arenas[a].published == [s] && s in after.serials && after.serials[s] == Serial(a, t, None)
          && after.pcs == c.pcs[t := WriteCachedSerial(a, s)])
    && after.arenas[a].threads == initial
  }

  /** An arena can be constructed wherever there is none, in memory that is not in use. */
  lemma ConstructBegins(states: seq<State>, i: nat, t: Thread, a: Addr, initial: Option<Addr>)
    requires Run(states) && i < |states| && t in states[i].pcs && states[i].pcs[t].Idle?
    ensures var c := states[i]; var next := Next(c, t, Construct(a, initial));
      && (next.Some? <==> a !in c.arenas && (initial.Some? ==> initial.value !in c.serials))
      && (next.Some? ==>
            && Begins(c, next.value, t, a, initial)
            && next.value.serials.Keys == c.serials.Keys + (if initial.Some? then {initial.value} else {})
            && forall s | s in c.serials :: s in next.value.serials && next.value.serials[s] == c.serials[s])
  {
    hide Run, Next;
    RunKeeps(states, i);
    var c := states[i];
    IdsAreUsed(c);
    Here(c, t);
    hide Invariant, SharedOk, PcOk, CacheOk, ListOk;
    ConstructIsNew(c, t, a, initial);
  }

  lemma ConstructIsNew(c: State, t: Thread, a: Addr, initial: Option<Addr>)
    requires t in c.pcs && t in c.caches && c.pcs[t].Idle?
    requires forall b | b in c.arenas :: c.arenas[b].id < c.generator
    requires forall u | u in c.caches :: c.caches[u].id < c.generator
    ensures var next := Next(c, t, Construct(a, initial));
      && (next.Some? <==> a !in c.arenas && (initial.Some? ==> initial.value !in c.serials))
      && (next.Some? ==>
            && Begins(c, next.value, t, a, initial)
            && next.value.serials.Keys == c.serials.Keys + (if initial.Some? then {initial.value} else {})
            && forall s | s in c.serials :: s in next.value.serials && next.value.serials[s] == c.serials[s])
  {
  }

  /**
   * Reset is possible exactly when no thread is in the arena; all its SerialArenas go, and no other; the initial
   * block, if there is one, is not in use elsewhere.
   */
  lemma ResetBegins(states: seq<State>, i: nat, t: Thread, a: Addr, initial: Option<Addr>)
    requires Run(states) && i < |states| && t in states[i].pcs && states[i].pcs[t].Idle?
    ensures var c := states[i]; var next := Next(c, t, Reset(a, initial));
      && (next.Some? <==>
            && a in c.arenas && (forall u | u in c.pcs :: c.pcs[u].Idle? || c.pcs[u].arena != a)
            && (initial.Some? && initial.value in c.serials ==> c.serials[initial.value].arena == a))
      && (next.Some? ==>
            && Begins(c, next.value, t, a, initial)
            && (forall s | s in next.value.serials :: next.value.serials[s].arena == a ==> initial == Some(s))
            && forall s | s in c.serials && c.serials[s].arena != a ::
                 s in next.value.serials && next.value.serials[s] == c.serials[s])
  {
    hide Run, Next;
    RunKeeps(states, i);
    var c := states[i];
    IdsAreUsed(c);
    Here(c, t);
    if a in c.arenas && Quiescent(c, a) {
      WhoseAre(c, a);
    }
    hide Invariant, SharedOk, PcOk, CacheOk, ListOk;
    ResetIsNew(c, t, a, initial);
  }

  lemma ResetIsNew(c: State, t: Thread, a: Addr, initial: Option<Addr>)
    requires t in c.pcs && t in c.caches && c.pcs[t].Idle?
    requires forall b | b in c.arenas :: c.arenas[b].id < c.generator
    requires forall u | u in c.caches :: c.caches[u].id < c.generator
    requires a in c.arenas && Quiescent(c, a) ==>
      forall s | s in c.serials :: s in c.arenas[a].published <==> c.serials[s].arena == a
    ensures var next := Next(c, t, Reset(a, initial));
      && (next.Some? <==>
            && a in c.arenas && (forall u | u in c.pcs :: c.pcs[u].Idle? || c.pcs[u].arena != a)
            && (initial.Some? && initial.value in c.serials ==> c.serials[initial.value].arena == a))
      && (next.Some? ==>
            && Begins(c, next.value, t, a, initial)
            && (forall s | s in next.value.serials :: next.value.serials[s].arena == a ==> initial == Some(s))
            && forall s | s in c.serials && c.serials[s].arena != a ::
                 s in next.value.serials && next.value.serials[s] == c.serials[s])
  {
  }

  /** So is the end of an arena, after which nothing of it is left and everything else is as it was. */
  lemma DestroyEnds(states: seq<State>, i: nat, t: Thread, a: Addr)
    requires Run(states) && i < |states| && t in states[i].pcs && states[i].pcs[t].Idle?
    ensures var c := states[i]; var next := Next(c, t, Destroy(a));
      && (next.Some? <==> a in c.arenas && forall u | u in c.pcs :: c.pcs[u].Idle? || c.pcs[u].arena != a)
      && (next.Some? ==>
            && next.value.arenas == c.arenas - {a} && next.value.pcs == c.pcs && next.value.caches == c.caches
            && next.value.generator == c.generator
            && next.value.serials == map s | s in c.serials && c.serials[s].arena != a :: c.serials[s])
  {
    hide Run, Next;
    RunKeeps(states, i);
    var c := states[i];
    IdsAreUsed(c);
    Here(c, t);
    if a in c.arenas && Quiescent(c, a) {
      WhoseAre(c, a);
    }
    hide Invariant, SharedOk, PcOk, CacheOk, ListOk;
    DestroyRemoves(c, t, a);
  }

  lemma DestroyRemoves(c: State, t: Thread, a: Addr)
    requires t in c.pcs && t in c.caches && c.pcs[t].Idle?
    requires a in c.arenas && Quiescent(c, a) ==>
      forall s | s in c.serials :: s in c.arenas[a].published <==> c.serials[s].arena == a
    ensures var next := Next(c, t, Destroy(a));
      && (next.Some? <==> a in c.arenas && forall u | u in c.pcs :: c.pcs[u].Idle? || c.pcs[u].arena != a)
      && (next.Some? ==>
            && next.value.arenas == c.arenas - {a} && next.value.pcs == c.pcs && next.value.caches == c.caches
            && next.value.generator == c.generator
            && next.value.serials == map s | s in c.serials && c.serials[s].arena != a :: c.serials[s])
  {
  }

  lemma IdsAreUsed(c: State)
    requires Invariant(c)
    ensures forall b | b in c.arenas :: c.arenas[b].id < c.generator
    ensures forall u | u in c.caches :: c.caches[u].id < c.generator
  {
    forall u | u in c.caches
      ensures c.caches[u].id < c.generator
    {
      Here(c, u);
    }
  }

  /** In a quiescent arena, the list holds exactly its SerialArenas. */
  lemma WhoseAre(c: State, a: Addr)
    requires Invariant(c) && a in c.arenas && Quiescent(c, a)
    ensures forall s | s in c.serials :: s in c.arenas[a].published <==> c.serials[s].arena == a
  {
    forall s | s in c.serials
      ensures s in c.arenas[a].published <==> c.serials[s].arena == a
    {
      LiveIsKept(c, s);
      assert ListOk(c.serials, a, c.arenas[a]);
      FreeKept(c, a, s);
    }
  }

  /** A thread enters an arena that is there, leaves it with its answer, and may end when it is in none. */
  lemma ThreadsComeAndGo(c: State, t: Thread, a: Addr, at: Addr, chance: bool)
    requires c.caches.Keys == c.pcs.Keys
    ensures t !in c.pcs ==>
      Next(c, t, Start) == Some(c.(caches := c.caches[t := Cache(-1, None)], pcs := c.pcs[t := Idle]))
    ensures t in c.pcs && c.pcs[t].Idle? ==>
      && Next(c, t, Exit) == Some(c.(caches := c.caches - {t}, pcs := c.pcs - {t}))
      && Next(c, t, Call(a)) == if a in c.arenas then Some(c.(pcs := c.pcs[t := CheckCache(a)])) else None
    ensures Answered(c, t) && c.pcs[t].arena in c.arenas ==>
      Next(c, t, Advance(at, chance)) == Some(c.(pcs := c.pcs[t := Idle]))
  {
  }
}
