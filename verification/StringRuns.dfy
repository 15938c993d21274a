/** Any run of operations on any number of string fields with one default, in a debug or in a release build. */
module StringRuns {
  import opened Prelude
  import opened StringFields

  /**
   * What happens to the fields. The callers' strings go by number, in the order in which they came into the callers'
   * hands; a release of a field that shows the default counts too, though it gives them no string.
   */
  datatype Op =
    | Add
    | Set(i: nat, value: string)
    | Write(i: nat, value: string)
    | Assign(i: nat, j: nat)
    | Swap(i: nat, j: nat)
    | ClearToEmpty(i: nat)
    | ClearToDefault(i: nat)
    | Release(i: nat)
    | SetAllocated(i: nat, given: Option<nat>)
    | DestroyLast
    | Make(value: string)
    | Discard(which: nat)

  /** What can be seen: the values of the fields, and of what the callers hold; None where they no longer do. */
  datatype View = View(fields: seq<string>, held: seq<Option<string>>)

  predicate Holds(v: View, k: nat)
  {
    k < |v.held| && v.held[k].Some?
  }

  /** What the code demands of its callers. */
  predicate Enabled(op: Op, v: View, default: string)
  {
    match op
    case Add => true
    case Set(i, _) => i < |v.fields|
    case Write(i, _) => i < |v.fields|
    case Assign(i, j) => i < |v.fields| && j < |v.fields|
    case Swap(i, j) => i < |v.fields| && j < |v.fields|
    case ClearToEmpty(i) => i < |v.fields| && default == ""
    case ClearToDefault(i) => i < |v.fields|
    case Release(i) => i < |v.fields|
    case SetAllocated(i, given) => i < |v.fields| && (given.Some? ==> Holds(v, given.value))
    case DestroyLast => v.fields != []
    case Make(_) => true
    case Discard(k) => Holds(v, k)
  }

  /** The operation on values alone: no string is shared, none moves, and the kind of build does not matter. */
  function After(op: Op, v: View, default: string): View
    requires Enabled(op, v, default)
  {
    match op
    case Add => v.(fields := v.fields + [default])
    case Set(i, value) => v.(fields := v.fields[i := value])
    case Write(i, value) => v.(fields := v.fields[i := value])
    case Assign(i, j) => v.(fields := v.fields[i := v.fields[j]])
    case Swap(i, j) => v.(fields := Swapped(v.fields, i, j))
    case ClearToEmpty(i) => v.(fields := v.fields[i := ""])
    case ClearToDefault(i) => v.(fields := v.fields[i := default])
    case Release(i) => View(v.fields[i := default], v.held + [Some(v.fields[i])])
    case SetAllocated(i, None) => v.(fields := v.fields[i := default])
    case SetAllocated(i, Some(k)) => View(v.fields[i := v.held[k].value], v.held[k := None])
    case DestroyLast => v.(fields := v.fields[..|v.fields| - 1])
    case Make(value) => v.(held := v.held + [Some(value)])
    case Discard(k) => v.(held := v.held[k := None])
  }

  predicate AllEnabled(ops: seq<Op>, v: View, default: string)
  {
    ops == [] || (Enabled(ops[0], v, default) && AllEnabled(ops[1..], After(ops[0], v, default), default))
  }

  function AfterAll(ops: seq<Op>, v: View, default: string): View
    requires AllEnabled(ops, v, default)
  {
    if ops == [] then v else AfterAll(ops[1..], After(ops[0], v, default), default)
  }

  /** A string in a caller's hands, or null from a field that showed the default. */
  datatype Handle = Gone | Held(s: HeapString?)

  ghost function Shown(default: HeapString, h: Handle): Option<string>
    reads default, if h.Held? && h.s != null then {h.s} else {}
  {
    match h
    case Gone => None
    case Held(s) => Some(if s == null then default.data else s.data)
  }

  ghost function HeldStrings(held: seq<Handle>): set<HeapString>
  {
    set h | h in held && h.Held? && h.s != null :: h.s
  }

  ghost function AllShown(default: HeapString, held: seq<Handle>): (r: seq<Option<string>>)
    reads default, HeldStrings(held)
    ensures |r| == |held| && forall k | 0 <= k < |r| :: r[k] == Shown(default, held[k])
  {
    seq(|held|, k requires 0 <= k < |held|
      reads default, if 0 <= k < |held| && held[k].Held? && held[k].s != null then {held[k].s} else {}
      => Shown(default, held[k]))
  }

  /** The callers own what they hold, and hold nothing twice. */
  ghost predicate HeldOk(callers: set<HeapString>, held: seq<Handle>)
  {
    && HeldStrings(held) <= callers
    && forall j, k | 0 <= j < k < |held| && held[j].Held? && held[j].s != null :: held[j] != held[k]
  }

  ghost function ViewOf(t: FieldTable, held: seq<Handle>): View
    reads t, t.fields, set f | f in t.fields :: f.ptr
    reads t.defaultValue, HeldStrings(held)
  {
    View(t.Values(), AllShown(t.defaultValue, held))
  }

  /** Where every string is: with a field, with the callers, or deleted. */
  datatype Account = Account(owned: set<HeapString>, callers: set<HeapString>, deleted: set<HeapString>)

  ghost function AccountOf(t: FieldTable): Account
    reads t, t.heap, t.fields
  {
    Account(Owned(t.Ptrs(), t.defaultValue), t.callers, t.heap.deleted)
  }

  /** No string is in two places. */
  ghost predicate Exclusive(a: Account)
  {
    a.owned !! a.callers && a.owned !! a.deleted && a.callers !! a.deleted
  }

  /**
   * A string that leaves a field is from then on with the callers or deleted; one that leaves the callers is with a
   * field or deleted; only strings that were with one of them get deleted; and a deleted string stays deleted.
   */
  ghost predicate Moves(a: Account, b: Account)
  {
    && Exclusive(a) && Exclusive(b)
    && a.owned <= b.owned + b.callers + b.deleted
    && a.callers <= b.callers + b.owned + b.deleted
    && b.deleted - a.deleted <= a.owned + a.callers
    && a.deleted <= b.deleted
  }

  lemma Books(t: FieldTable)
    requires t.Valid()
    ensures Exclusive(AccountOf(t)) && t.heap.live == AccountOf(t).owned + t.callers
  {
  }

  lemma HeldStringsIn(held: seq<Handle>, k: nat)
    requires k < |held| && held[k].Held? && held[k].s != null
    ensures held[k].s in HeldStrings(held)
  {
    assert held[k] in held;
  }

  /** The operations that only change what fields show. */
  predicate OnlyShows(op: Op)
  {
    op.Set? || op.Write? || op.Assign? || op.Swap? || op.ClearToEmpty? || op.ClearToDefault?
  }

  /** What a run may change: the fields, and the strings that are live. */
  ghost function Footprint(t: FieldTable): set<object>
    reads t, t.heap
  {
    {t, t.heap} + (set f: object | f in t.fields) + set s: object | s in t.heap.live
  }

  method Show(t: FieldTable, op: Op, debug: bool)
    requires t.Valid() && OnlyShows(op) && Enabled(op, View(t.Values(), []), t.defaultValue.data)
    modifies t.heap, t.fields, t.heap.live - t.callers
    ensures t.Valid() && t.defaultValue.data == old(t.defaultValue.data)
    ensures t.Values() == After(op, View(old(t.Values()), []), t.defaultValue.data).fields
    ensures old(t.heap.live) <= t.heap.live && t.heap.deleted == old(t.heap.deleted)
    ensures forall s | s in t.heap.live :: s in old(t.heap.live) || fresh(s)
  {
    hide FieldTable.Valid;
    t.Unshared();
    match op {
      case Set(i, value) => t.Set(i, value);
      case Write(i, value) => t.MutableAndWrite(i, value);
      case Assign(i, j) => t.Assign(i, j);
      case Swap(i, j) =>
        if debug {
          t.SwapDebug(i, j);
        } else {
          t.SwapRelease(i, j);
          Books(t);
        }
      case ClearToEmpty(i) => t.ClearToEmpty(i);
      case ClearToDefault(i) => t.ClearToDefault(i);
    }
  }

  method DoShow(t: FieldTable, held: seq<Handle>, op: Op, debug: bool) returns (now: seq<Handle>)
    requires OnlyShows(op) && t.Valid() && HeldOk(t.callers, held)
    requires Enabled(op, ViewOf(t, held), t.defaultValue.data)
    modifies Footprint(t)
    ensures t.Valid() && HeldOk(t.callers, now) && t.defaultValue.data == old(t.defaultValue.data)
    ensures ViewOf(t, now) == After(op, old(ViewOf(t, held)), t.defaultValue.data)
    ensures Moves(old(AccountOf(t)), AccountOf(t))
    ensures forall o | o in Footprint(t) :: o in old(Footprint(t)) || fresh(o)
  {
    hide FieldTable.Valid, After, Enabled;
    Books(t);
    t.Unshared();
    now := held;
    ShowsOnly(op, t.Values(), AllShown(t.defaultValue, held), t.defaultValue.data);
    Show(t, op, debug);
    Books(t);
    assert AllShown(t.defaultValue, now) == old(AllShown(t.defaultValue, held));
  }

  lemma ShowsOnly(op: Op, fields: seq<string>, held: seq<Option<string>>, default: string)
    requires OnlyShows(op) && Enabled(op, View(fields, held), default)
    ensures Enabled(op, View(fields, []), default)
    ensures After(op, View(fields, held), default) == View(After(op, View(fields, []), default).fields, held)
  {
  }

  method DoShape(t: FieldTable, held: seq<Handle>, op: Op) returns (now: seq<Handle>)
    requires (op.Add? || op.DestroyLast?) && t.Valid() && HeldOk(t.callers, held)
    requires Enabled(op, ViewOf(t, held), t.defaultValue.data)
    modifies Footprint(t)
    ensures t.Valid() && HeldOk(t.callers, now) && t.defaultValue.data == old(t.defaultValue.data)
    ensures ViewOf(t, now) == After(op, old(ViewOf(t, held)), t.defaultValue.data)
    ensures Moves(old(AccountOf(t)), AccountOf(t))
    ensures forall o | o in Footprint(t) :: o in old(Footprint(t)) || fresh(o)
  {
    hide FieldTable.Valid;
    Books(t);
    now := held;
    if op.Add? {
      t.AddField();
    } else {
      t.DestroyLast();
    }
    Books(t);
    assert AllShown(t.defaultValue, now) == old(AllShown(t.defaultValue, held));
  }

  method DoGain(t: FieldTable, held: seq<Handle>, op: Op) returns (now: seq<Handle>)
    requires (op.Release? || op.Make?) && t.Valid() && HeldOk(t.callers, held)
    requires Enabled(op, ViewOf(t, held), t.defaultValue.data)
    modifies Footprint(t)
    ensures t.Valid() && HeldOk(t.callers, now) && t.defaultValue.data == old(t.defaultValue.data)
    ensures ViewOf(t, now) == After(op, old(ViewOf(t, held)), t.defaultValue.data)
    ensures Moves(old(AccountOf(t)), AccountOf(t))
    ensures forall o | o in Footprint(t) :: o in old(Footprint(t)) || fresh(o)
  {
    hide FieldTable.Valid;
    Books(t);
    t.Unshared();
    if op.Release? {
      var s := t.Release(op.i);
      now := held + [Held(s)];
    } else {
      var s := t.CallerMakes(op.value);
      now := held + [Held(s)];
    }
    Books(t);
  }

  lemma LetGo(callers: set<HeapString>, held: seq<Handle>, k: nat)
    requires HeldOk(callers, held) && k < |held| && held[k].Held?
    ensures held[k].s != null ==> held[k].s in callers
    ensures HeldOk(callers - (if held[k].s == null then {} else {held[k].s}), held[k := Gone])
    ensures held[k].s == null ==> HeldOk(callers, held[k := Gone])
    ensures HeldStrings(held[k := Gone]) <= callers
  {
    var now := held[k := Gone];
    forall h | h in now && h.Held? && h.s != null
      ensures h in held && h != held[k]
    {
      var j :| 0 <= j < |now| && now[j] == h;
      assert held[j] == h;
    }
    if held[k].s != null {
      HeldStringsIn(held, k);
    }
  }

  method DoTake(t: FieldTable, held: seq<Handle>, op: Op) returns (now: seq<Handle>)
    requires op.SetAllocated? && op.given.Some? && t.Valid() && HeldOk(t.callers, held)
    requires Enabled(op, ViewOf(t, held), t.defaultValue.data)
    modifies Footprint(t)
    ensures t.Valid() && HeldOk(t.callers, now) && t.defaultValue.data == old(t.defaultValue.data)
    ensures ViewOf(t, now) == After(op, old(ViewOf(t, held)), t.defaultValue.data)
    ensures Moves(old(AccountOf(t)), AccountOf(t))
    ensures forall o | o in Footprint(t) :: o in old(Footprint(t)) || fresh(o)
  {
    hide FieldTable.Valid, HeldOk;
    Books(t);
    t.Unshared();
    LetGo(t.callers, held, op.given.value);
    t.SetAllocated(op.i, held[op.given.value].s);
    now := held[op.given.value := Gone];
    Books(t);
  }

  method DoDrop(t: FieldTable, held: seq<Handle>, op: Op) returns (now: seq<Handle>)
    requires op.SetAllocated? && op.given.None? && t.Valid() && HeldOk(t.callers, held)
    requires Enabled(op, ViewOf(t, held), t.defaultValue.data)
    modifies Footprint(t)
    ensures t.Valid() && HeldOk(t.callers, now) && t.defaultValue.data == old(t.defaultValue.data)
    ensures ViewOf(t, now) == After(op, old(ViewOf(t, held)), t.defaultValue.data)
    ensures Moves(old(AccountOf(t)), AccountOf(t))
    ensures forall o | o in Footprint(t) :: o in old(Footprint(t)) || fresh(o)
  {
    hide FieldTable.Valid, HeldOk;
    Books(t);
    t.Unshared();
    t.SetAllocated(op.i, null);
    assert t.callers == old(t.callers);
    now := held;
    assert AllShown(t.defaultValue, now) == old(AllShown(t.defaultValue, held));
    Books(t);
  }

  method DoDiscard(t: FieldTable, held: seq<Handle>, op: Op) returns (now: seq<Handle>)
    requires op.Discard? && t.Valid() && HeldOk(t.callers, held)
    requires Enabled(op, ViewOf(t, held), t.defaultValue.data)
    modifies Footprint(t)
    ensures t.Valid() && HeldOk(t.callers, now) && t.defaultValue.data == old(t.defaultValue.data)
    ensures ViewOf(t, now) == After(op, old(ViewOf(t, held)), t.defaultValue.data)
    ensures Moves(old(AccountOf(t)), AccountOf(t))
    ensures forall o | o in Footprint(t) :: o in old(Footprint(t)) || fresh(o)
  {
    hide FieldTable.Valid, HeldOk;
    Books(t);
    t.Unshared();
    LetGo(t.callers, held, op.which);
    if held[op.which].s != null {
      t.CallerDeletes(held[op.which].s);
    }
    now := held[op.which := Gone];
    Books(t);
  }

  method Do(t: FieldTable, held: seq<Handle>, op: Op, debug: bool) returns (now: seq<Handle>)
    requires t.Valid() && HeldOk(t.callers, held) && Enabled(op, ViewOf(t, held), t.defaultValue.data)
    modifies Footprint(t)
    ensures t.Valid() && HeldOk(t.callers, now) && t.defaultValue.data == old(t.defaultValue.data)
    ensures ViewOf(t, now) == After(op, old(ViewOf(t, held)), t.defaultValue.data)
    ensures Moves(old(AccountOf(t)), AccountOf(t))
    ensures forall o | o in Footprint(t) :: o in old(Footprint(t)) || fresh(o)
  {
    hide FieldTable.Valid, HeldOk, After, Enabled, Moves, ViewOf, AccountOf, Footprint;
    if OnlyShows(op) {
      now := DoShow(t, held, op, debug);
    } else if op.Add? || op.DestroyLast? {
      now := DoShape(t, held, op);
    } else if op.Release? || op.Make? {
      now := DoGain(t, held, op);
    } else if op.SetAllocated? && op.given.Some? {
      now := DoTake(t, held, op);
    } else if op.SetAllocated? {
      now := DoDrop(t, held, op);
    } else {
      now := DoDiscard(t, held, op);
    }
  }

  /** The accounts of a run: from each to the next, strings only move as they may. */
  ghost predicate Ledger(accounts: seq<Account>)
  {
    && accounts != [] && (forall i | 0 <= i < |accounts| :: Exclusive(accounts[i]))
    && (forall i | 0 <= i < |accounts| - 1 :: Moves(accounts[i], accounts[i + 1]))
  }

  /**
   * Over any run, in either kind of build: the values are those of the operations on values alone, the default does
   * not change, every string has one owner throughout, and the ledger records how the strings move.
   */
  method Run(t: FieldTable, held: seq<Handle>, ops: seq<Op>, debug: bool)
    returns (now: seq<Handle>, ghost accounts: seq<Account>)
    requires t.Valid() && HeldOk(t.callers, held) && AllEnabled(ops, ViewOf(t, held), t.defaultValue.data)
    modifies Footprint(t)
    ensures t.Valid() && HeldOk(t.callers, now) && t.defaultValue.data == old(t.defaultValue.data)
    ensures ViewOf(t, now) == AfterAll(ops, old(ViewOf(t, held)), t.defaultValue.data)
    ensures |accounts| == |ops| + 1 && Ledger(accounts)
    ensures accounts[0] == old(AccountOf(t)) && accounts[|ops|] == AccountOf(t)
    ensures forall o | o in Footprint(t) :: o in old(Footprint(t)) || fresh(o)
  {
    hide FieldTable.Valid, HeldOk, After, Enabled, Moves, ViewOf, AccountOf, Exclusive, Footprint;
    Books(t);
    now, accounts := held, [AccountOf(t)];
    ghost var v := ViewOf(t, held);
    var i := 0;
    assert ops[0..] == ops;
    while i < |ops|
      invariant i <= |ops| && t.Valid() && HeldOk(t.callers, now) && t.defaultValue.data == old(t.defaultValue.data)
      invariant AllEnabled(ops[i..], ViewOf(t, now), t.defaultValue.data)
      invariant AfterAll(ops[i..], ViewOf(t, now), t.defaultValue.data)
             == AfterAll(ops, v, t.defaultValue.data)
      invariant |accounts| == i + 1 && Ledger(accounts)
      invariant accounts[0] == old(AccountOf(t)) && accounts[i] == AccountOf(t)
      invariant forall o | o in Footprint(t) :: o in old(Footprint(t)) || fresh(o)
    {
      assert ops[i..][1..] == ops[i + 1..];
      now := Do(t, now, ops[i], debug);
      Books(t);
      accounts := accounts + [AccountOf(t)];
      i := i + 1;
    }
  }

  /** The same run in a debug and in a release build, from the same default: everything visible is the same. */
  method DebugAndRelease(default: string, ops: seq<Op>)
    returns (debugged: seq<string>, released: seq<string>, ghost held: seq<Option<string>>,
             ghost heldToo: seq<Option<string>>)
    requires AllEnabled(ops, View([], []), default)
    ensures debugged == released == AfterAll(ops, View([], []), default).fields
    ensures held == heldToo == AfterAll(ops, View([], []), default).held
  {
    hide FieldTable.Valid, HeldOk, AfterAll, AllEnabled, Ledger;
    debugged, held := RunFresh(default, ops, true);
    released, heldToo := RunFresh(default, ops, false);
  }

  method RunFresh(default: string, ops: seq<Op>, debug: bool)
    returns (values: seq<string>, ghost held: seq<Option<string>>)
    requires AllEnabled(ops, View([], []), default)
    ensures View(values, held) == AfterAll(ops, View([], []), default)
  {
    hide FieldTable.Valid, AfterAll, AllEnabled, Ledger;
    var d := new HeapString(default);
    var t := new FieldTable(d);
    assert ViewOf(t, []) == View([], []);
    var now, _ := Run(t, [], ops, debug);
    values, held := t.Values(), AllShown(t.defaultValue, now);
  }

  ghost function One(b: bool): nat
  {
    if b then 1 else 0
  }

  /** How often a string came to a field, in a run so far. */
  ghost function Arrivals(accounts: seq<Account>, s: HeapString, n: nat): nat
    requires n < |accounts|
  {
    if n == 0 then 0
    else Arrivals(accounts, s, n - 1) + One(s !in accounts[n - 1].owned && s in accounts[n].owned)
  }

  /** How often it went from a field to the callers. */
  ghost function Releases(accounts: seq<Account>, s: HeapString, n: nat): nat
    requires n < |accounts|
  {
    if n == 0 then 0
    else Releases(accounts, s, n - 1) + One(s in accounts[n - 1].owned && s in accounts[n].callers)
  }

  /** How often it was deleted with its field or in it. */
  ghost function FieldDeletions(accounts: seq<Account>, s: HeapString, n: nat): nat
    requires n < |accounts|
  {
    if n == 0 then 0
    else FieldDeletions(accounts, s, n - 1) + One(s in accounts[n - 1].owned && s in accounts[n].deleted)
  }

  /** How often it was deleted at all. */
  ghost function Deletions(accounts: seq<Account>, s: HeapString, n: nat): nat
    requires n < |accounts|
  {
    if n == 0 then 0
    else Deletions(accounts, s, n - 1) + One(s !in accounts[n - 1].deleted && s in accounts[n].deleted)
  }

  /** Each stay of a string with a field ends once: by a release or by a deletion, unless it lasts still. */
  lemma {:induction false} EachStayEndsOnce(accounts: seq<Account>, s: HeapString, n: nat)
    requires Ledger(accounts) && n < |accounts|
    ensures One(s in accounts[0].owned) + Arrivals(accounts, s, n)
         == One(s in accounts[n].owned) + Releases(accounts, s, n) + FieldDeletions(accounts, s, n)
  {
    if n == 0 {
    } else {
      EachStayEndsOnce(accounts, s, n - 1);
      assert Exclusive(accounts[n]) && Moves(accounts[n - 1], accounts[n - 1 + 1]);
    }
  }

  /** A string is deleted once: it is deleted at the end exactly when it was at the beginning or was once deleted. */
  lemma {:induction false} DeletedOnce(accounts: seq<Account>, s: HeapString, n: nat)
    requires Ledger(accounts) && n < |accounts|
    ensures One(s in accounts[n].deleted) == One(s in accounts[0].deleted) + Deletions(accounts, s, n)
  {
    if n == 0 {
    } else {
      DeletedOnce(accounts, s, n - 1);
      assert Moves(accounts[n - 1], accounts[n - 1 + 1]);
    }
  }

  /** A deleted string belongs to no field and to no caller ever after. */
  lemma {:induction false} DeletedForGood(accounts: seq<Account>, s: HeapString, i: nat, j: nat)
    requires Ledger(accounts) && i <= j < |accounts| && s in accounts[i].deleted
    ensures s in accounts[j].deleted && s !in accounts[j].owned && s !in accounts[j].callers
  {
    if i == j {
      assert Exclusive(accounts[j]);
    } else {
      DeletedForGood(accounts, s, i, j - 1);
      assert Exclusive(accounts[j]) && Moves(accounts[j - 1], accounts[j - 1 + 1]);
    }
  }
}
