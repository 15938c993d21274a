/**
 * ArenaStringPtr without an arena: string fields that all point to one shared default until they are written to,
 * and from then on own a string on the heap.
 */
module StringFields {

  /** A std::string object. */
  class HeapString {
    var data: string

    constructor (data: string)
      ensures this.data == data
    {
      this.data := data;
    }
  }

  /** The heap's account of its strings: a string is live from `new` until `delete`. */
  class StringHeap {
    ghost var live: set<HeapString>
    ghost var deleted: set<HeapString>

    constructor ()
      ensures live == deleted == {}
    {
      live, deleted := {}, {};
    }

    method New(data: string) returns (s: HeapString)
      modifies this
      ensures fresh(s) && s.data == data
      ensures live == old(live) + {s} && deleted == old(deleted)
    {
      s := new HeapString(data);
      live := live + {s};
    }

    /** Only a live string can be deleted, so none is deleted twice. */
    method Delete(s: HeapString)
      requires s in live
      modifies this
      ensures live == old(live) - {s} && deleted == old(deleted) + {s}
    {
      live, deleted := live - {s}, deleted + {s};
    }
  }

  class ArenaStringPtr {
    var ptr: HeapString

    /** UnsafeSetDefault on a new field. */
    constructor (defaultValue: HeapString)
      ensures ptr == defaultValue
    {
      ptr := defaultValue;
    }

    predicate IsDefault(defaultValue: HeapString)
      reads this
    {
      ptr == defaultValue
    }

    method SetNoArena(defaultValue: HeapString, value: string, heap: StringHeap)
      modifies this, heap, if ptr == defaultValue then {} else {ptr}
      ensures ptr.data == value && ptr != defaultValue
      ensures if old(ptr) == defaultValue then fresh(ptr) else ptr == old(ptr)
      ensures heap.deleted == old(heap.deleted)
      ensures heap.live == old(heap.live) + if old(ptr) == defaultValue then {ptr} else {}
    {
      if ptr == defaultValue {
        ptr := heap.New(value);
      } else {
        ptr.data := value;
      }
    }

    /** A string the caller may write to: never the default. */
    method MutableNoArena(defaultValue: HeapString, heap: StringHeap) returns (s: HeapString)
      modifies this, heap
      ensures s == ptr && ptr != defaultValue && ptr.data == old(ptr.data)
      ensures if old(ptr) == defaultValue then fresh(ptr) else ptr == old(ptr)
      ensures heap.deleted == old(heap.deleted)
      ensures heap.live == old(heap.live) + if old(ptr) == defaultValue then {ptr} else {}
    {
      if ptr == defaultValue {
        ptr := heap.New(defaultValue.data);
      }
      s := ptr;
    }

    method ReleaseNoArena(defaultValue: HeapString) returns (released: HeapString?)
      modifies this
      ensures ptr == defaultValue
      ensures released == if old(ptr) == defaultValue then null else old(ptr)
    {
      if ptr == defaultValue {
        released := null;
      } else {
        released := ptr;
        ptr := defaultValue;
      }
    }

    method SetAllocatedNoArena(defaultValue: HeapString, value: HeapString?, heap: StringHeap)
      requires ptr != defaultValue ==> ptr in heap.live
      modifies this, heap
      ensures ptr == if value != null then value else defaultValue
      ensures if old(ptr) == defaultValue then heap.live == old(heap.live) && heap.deleted == old(heap.deleted)
              else heap.live == old(heap.live) - {old(ptr)} && heap.deleted == old(heap.deleted) + {old(ptr)}
    {
      if ptr != defaultValue {
        heap.Delete(ptr);
      }
      if value != null {
        ptr := value;
      } else {
        ptr := defaultValue;
      }
    }

    /** The end of a field's life. */
    method DestroyNoArena(defaultValue: HeapString, heap: StringHeap)
      requires ptr != defaultValue ==> ptr in heap.live
      modifies heap
      ensures if ptr == defaultValue then heap.live == old(heap.live) && heap.deleted == old(heap.deleted)
              else heap.live == old(heap.live) - {ptr} && heap.deleted == old(heap.deleted) + {ptr}
    {
      if ptr != defaultValue {
        heap.Delete(ptr);
      }
    }

    method ClearToEmptyNoArena(defaultValue: HeapString)
      modifies if ptr == defaultValue then {} else {ptr}
      ensures ptr != defaultValue ==> ptr.data == ""
    {
      if ptr != defaultValue {
        ptr.data := "";
      }
    }

    method ClearToDefaultNoArena(defaultValue: HeapString)
      modifies if ptr == defaultValue then {} else {ptr}
      ensures ptr.data == old(defaultValue.data)
    {
      if ptr != defaultValue {
        ptr.data := defaultValue.data;
      }
    }

    /** Copies what another field shows, unless both point to the same string. */
    method AssignWithDefault(defaultValue: HeapString, value: ArenaStringPtr, heap: StringHeap)
      modifies this, heap, if ptr == defaultValue then {} else {ptr}
      ensures ptr.data == old(value.ptr.data)
      ensures if old(ptr) == defaultValue && old(value.ptr) != defaultValue then fresh(ptr) else ptr == old(ptr)
      ensures heap.deleted == old(heap.deleted)
      ensures heap.live == old(heap.live) + ({ptr} - {old(ptr)})
    {
      if ptr != value.ptr {
        SetNoArena(defaultValue, value.ptr.data, heap);
      }
    }

    /** The release form: the pointers change places. */
    method SwapPointers(other: ArenaStringPtr)
      modifies this, other
      ensures ptr == old(other.ptr) && other.ptr == old(ptr)
    {
      ptr, other.ptr := other.ptr, ptr;
    }

    /** The debug form: the contents change places, in strings that are not the default. */
    method SwapContents(other: ArenaStringPtr, defaultValue: HeapString, heap: StringHeap)
      requires ptr == other.ptr ==> this == other || ptr == defaultValue
      modifies this, other, heap
      modifies if ptr == defaultValue then {} else {ptr}, if other.ptr == defaultValue then {} else {other.ptr}
      ensures ptr.data == old(other.ptr.data) && other.ptr.data == old(ptr.data)
      ensures ptr == other.ptr ==> this == other || ptr == defaultValue
      ensures ptr == old(ptr) || (old(ptr) == defaultValue && fresh(ptr))
      ensures other.ptr == old(other.ptr) || (old(other.ptr) == defaultValue && fresh(other.ptr))
      ensures heap.deleted == old(heap.deleted)
      ensures heap.live == old(heap.live) + ({ptr, other.ptr} - {old(ptr), old(other.ptr)})
    {
      if IsDefault(defaultValue) && other.IsDefault(defaultValue) {
        return;
      }
      var mine := MutableNoArena(defaultValue, heap);
      var others := other.MutableNoArena(defaultValue, heap);
      mine.data, others.data := others.data, mine.data;
    }
  }

  function Swapped<T>(values: seq<T>, i: nat, j: nat): (r: seq<T>)
    requires i < |values| && j < |values|
    ensures |r| == |values| && r[i] == values[j] && r[j] == values[i]
    ensures forall k | 0 <= k < |values| && k != i && k != j :: r[k] == values[k]
  {
    values[i := values[j]][j := values[i]]
  }

  /** The strings that fields with these pointers own. */
  ghost function Owned(ptrs: seq<HeapString>, defaultValue: HeapString): set<HeapString>
  {
    (set p | p in ptrs) - {defaultValue}
  }

  /**
   * Every live string is owned by exactly one field or by the callers, and nothing live was ever deleted; the
   * default belongs to nobody and two fields share no other string.
   */
  ghost predicate Accounted(ptrs: seq<HeapString>, defaultValue: HeapString, callers: set<HeapString>,
                            live: set<HeapString>, deleted: set<HeapString>)
  {
    && (forall i, j | 0 <= i < j < |ptrs| :: ptrs[i] == ptrs[j] ==> ptrs[i] == defaultValue)
    && live == Owned(ptrs, defaultValue) + callers && Owned(ptrs, defaultValue) !! callers
    && live !! deleted
    && defaultValue !in live && defaultValue !in deleted
  }

  /** A field that showed the default gets a string of its own. */
  lemma FieldGains(ptrs: seq<HeapString>, i: nat, p: HeapString, defaultValue: HeapString, callers: set<HeapString>,
                   live: set<HeapString>, deleted: set<HeapString>)
    requires Accounted(ptrs, defaultValue, callers, live, deleted) && i < |ptrs| && ptrs[i] == defaultValue
    requires p != defaultValue && p !in live && p !in deleted
    ensures Accounted(ptrs[i := p], defaultValue, callers, live + {p}, deleted)
  {
    OwnedUpdate(ptrs, i, p, defaultValue);
    assert forall k | 0 <= k < |ptrs| :: ptrs[k] in ptrs;
  }

  lemma OwnedUpdate(ptrs: seq<HeapString>, i: nat, p: HeapString, defaultValue: HeapString)
    requires i < |ptrs| && ptrs[i] == defaultValue
    ensures Owned(ptrs[i := p], defaultValue) == Owned(ptrs, defaultValue) + ({p} - {defaultValue})
  {
    assert ptrs[i := p][i] == p;
    forall q | q in ptrs && q != defaultValue
      ensures q in ptrs[i := p]
    {
      var k :| 0 <= k < |ptrs| && ptrs[k] == q;
      assert ptrs[i := p][k] == q;
    }
  }

  lemma GainsOrKeeps(ptrs: seq<HeapString>, i: nat, p: HeapString, defaultValue: HeapString, callers: set<HeapString>,
                     live: set<HeapString>, deleted: set<HeapString>)
    requires Accounted(ptrs, defaultValue, callers, live, deleted) && i < |ptrs|
    requires p == ptrs[i] || (ptrs[i] == defaultValue && p !in live && p !in deleted)
    ensures Accounted(ptrs[i := p], defaultValue, callers, live + ({p} - {ptrs[i]}), deleted)
  {
    if p == ptrs[i] {
      assert ptrs[i := p] == ptrs;
    } else {
      FieldGains(ptrs, i, p, defaultValue, callers, live, deleted);
    }
  }

  /** A field that showed the default takes over a string of the callers. */
  lemma FieldAdopts(ptrs: seq<HeapString>, i: nat, p: HeapString, defaultValue: HeapString, callers: set<HeapString>,
                    live: set<HeapString>, deleted: set<HeapString>)
    requires Accounted(ptrs, defaultValue, callers, live, deleted) && i < |ptrs| && ptrs[i] == defaultValue
    requires p in callers
    ensures Accounted(ptrs[i := p], defaultValue, callers - {p}, live, deleted)
  {
    OwnedUpdate(ptrs, i, p, defaultValue);
    assert forall k | 0 <= k < |ptrs| :: ptrs[k] in ptrs;
  }

  /** A field that owned a string shows the default again. */
  lemma FieldLoses(ptrs: seq<HeapString>, i: nat, defaultValue: HeapString, callers: set<HeapString>,
                   live: set<HeapString>, deleted: set<HeapString>)
    requires Accounted(ptrs, defaultValue, callers, live, deleted) && i < |ptrs| && ptrs[i] != defaultValue
    ensures ptrs[i] in live && ptrs[i] !in callers
    ensures Accounted(ptrs[i := defaultValue], defaultValue, callers + {ptrs[i]}, live, deleted)
    ensures Accounted(ptrs[i := defaultValue], defaultValue, callers, live - {ptrs[i]}, deleted + {ptrs[i]})
  {
    var p, rest := ptrs[i], ptrs[i := defaultValue];
    assert rest[i := p] == ptrs;
    OwnedUpdate(rest, i, p, defaultValue);
    assert p in ptrs;
    assert forall k | 0 <= k < |rest| && k != i :: rest[k] == ptrs[k];
    assert p !in rest;
  }

  /** SetAllocated: the field's own string is deleted, and one of the callers' takes its place. */
  lemma Replaced(ptrs: seq<HeapString>, i: nat, p: HeapString?, defaultValue: HeapString, callers: set<HeapString>,
                 live: set<HeapString>, deleted: set<HeapString>)
    requires Accounted(ptrs, defaultValue, callers, live, deleted) && i < |ptrs| && (p != null ==> p in callers)
    ensures Accounted(ptrs[i := if p == null then defaultValue else p], defaultValue,
                      callers - (if p == null then {} else {p}),
                      live - ({ptrs[i]} - {defaultValue}), deleted + ({ptrs[i]} - {defaultValue}))
  {
    hide Accounted;
    var cleared := ptrs[i := defaultValue];
    if ptrs[i] != defaultValue {
      FieldLoses(ptrs, i, defaultValue, callers, live, deleted);
      assert {ptrs[i]} - {defaultValue} == {ptrs[i]};
    } else {
      assert cleared == ptrs && live - ({ptrs[i]} - {defaultValue}) == live;
      assert deleted + ({ptrs[i]} - {defaultValue}) == deleted;
    }
    if p != null {
      FieldAdopts(cleared, i, p, defaultValue, callers, live - ({ptrs[i]} - {defaultValue}),
                  deleted + ({ptrs[i]} - {defaultValue}));
      assert cleared[i := p] == ptrs[i := p];
    } else {
      assert callers - {} == callers;
    }
  }

  /** Swap in a debug build: either field may get a string of its own. */
  lemma BothGainOrKeep(ptrs: seq<HeapString>, i: nat, j: nat, p: HeapString, q: HeapString, defaultValue: HeapString,
                       callers: set<HeapString>, live: set<HeapString>, deleted: set<HeapString>,
                       after: set<HeapString>)
    requires Accounted(ptrs, defaultValue, callers, live, deleted) && i < |ptrs| && j < |ptrs|
    requires p == ptrs[i] || (ptrs[i] == defaultValue && p !in live && p !in deleted)
    requires q == ptrs[j] || (ptrs[j] == defaultValue && q !in live && q !in deleted)
    requires (i == j ==> p == q) && (p == q ==> i == j || p == defaultValue)
    requires after == live + ({p, q} - {ptrs[i], ptrs[j]})
    ensures Accounted(ptrs[i := p][j := q], defaultValue, callers, after, deleted)
  {
    assert ptrs[i] == ptrs[j] ==> i == j || ptrs[i] == defaultValue;
    assert ptrs[i] in ptrs && ptrs[j] in ptrs;
    assert ptrs[i] != defaultValue ==> ptrs[i] in live;
    hide Accounted;
    GainsOrKeeps(ptrs, i, p, defaultValue, callers, live, deleted);
    var mid := live + ({p} - {ptrs[i]});
    GainsOrKeeps(ptrs[i := p], j, q, defaultValue, callers, mid, deleted);
    assert after == mid + ({q} - {ptrs[i := p][j]});
  }

  /** Any number of fields with one default, and the code that calls them. */
  class FieldTable {
    const defaultValue: HeapString
    const heap: StringHeap
    var fields: seq<ArenaStringPtr>
    /** Strings the callers own: released to them, or made by them. */
    ghost var callers: set<HeapString>

    ghost function Ptrs(): (r: seq<HeapString>)
      reads this, fields
      ensures |r| == |fields| && forall i | 0 <= i < |r| :: r[i] == fields[i].ptr
    {
      var fs := fields;
      seq(|fs|, i requires 0 <= i < |fs| reads if 0 <= i < |fs| then {fs[i]} else {} => fs[i].ptr)
    }

    /** What the user sees. */
    function Values(): (r: seq<string>)
      reads this, fields, set f | f in fields :: f.ptr
      ensures |r| == |fields| && forall i | 0 <= i < |r| :: r[i] == fields[i].ptr.data
    {
      var fs := fields;
      seq(|fs|, i requires 0 <= i < |fs| reads if 0 <= i < |fs| then {fs[i], fs[i].ptr} else {} => fs[i].ptr.data)
    }

    ghost predicate Valid()
      reads this, heap, fields
    {
      && (forall i, j | 0 <= i < j < |fields| :: fields[i] != fields[j])
      && Accounted(Ptrs(), defaultValue, callers, heap.live, heap.deleted)
    }

    constructor (defaultValue: HeapString)
      ensures Valid() && fields == [] && callers == {} && this.defaultValue == defaultValue
      ensures fresh(heap) && heap.live == heap.deleted == {}
    {
      this.defaultValue := defaultValue;
      heap := new StringHeap();
      fields, callers := [], {};
    }

    lemma Unshared()
      requires Valid()
      ensures forall j, k | 0 <= j < k < |fields| && fields[j].ptr == fields[k].ptr :: fields[j].ptr == defaultValue
      ensures defaultValue !in heap.live && defaultValue !in callers
      ensures forall k | 0 <= k < |fields| && fields[k].ptr != defaultValue ::
        fields[k].ptr in heap.live && fields[k].ptr !in callers
    {
      assert forall k | 0 <= k < |fields| :: Ptrs()[k] in Ptrs() && Ptrs()[k] == fields[k].ptr;
    }

    /** A new field shows the default. */
    method AddField()
      requires Valid()
      modifies `fields
      ensures Valid() && Values() == old(Values()) + [defaultValue.data] && callers == old(callers)
      ensures |fields| == |old(fields)| + 1 && old(fields) <= fields
      ensures fresh(fields[|old(fields)|]) && fields[|old(fields)|].ptr == defaultValue
    {
      var f := new ArenaStringPtr(defaultValue);
      ghost var before := Ptrs();
      fields := fields + [f];
      assert Ptrs() == before + [defaultValue];
      assert Owned(Ptrs(), defaultValue) == Owned(before, defaultValue);
    }

    method Set(i: nat, value: string)
      requires Valid() && i < |fields|
      modifies heap, fields[i], if fields[i].ptr == defaultValue then {} else {fields[i].ptr}
      ensures Valid() && Values() == old(Values())[i := value]
      ensures fields[i].ptr == old(fields[i].ptr) || fresh(fields[i].ptr)
      ensures heap.deleted == old(heap.deleted)
      ensures heap.live == old(heap.live) + ({fields[i].ptr} - {old(fields[i].ptr)})
      ensures defaultValue.data == old(defaultValue.data)
    {
      Unshared();
      hide Accounted;
      ghost var before, live := Ptrs(), heap.live;
      fields[i].SetNoArena(defaultValue, value, heap);
      GainsOrKeeps(before, i, fields[i].ptr, defaultValue, callers, live, heap.deleted);
      assert heap.live == live + ({fields[i].ptr} - {before[i]});
      assert Ptrs() == before[i := fields[i].ptr];
    }

    /** A caller writes to the string it got: no other field sees it, and the default does not change. */
    method MutableAndWrite(i: nat, value: string)
      requires Valid() && i < |fields|
      modifies heap, fields[i], if fields[i].ptr == defaultValue then {} else {fields[i].ptr}
      ensures Valid() && Values() == old(Values())[i := value]
      ensures fields[i].ptr == old(fields[i].ptr) || fresh(fields[i].ptr)
      ensures heap.deleted == old(heap.deleted)
      ensures heap.live == old(heap.live) + ({fields[i].ptr} - {old(fields[i].ptr)})
      ensures defaultValue.data == old(defaultValue.data)
    {
      Unshared();
      hide Accounted;
      ghost var before, live := Ptrs(), heap.live;
      var s := fields[i].MutableNoArena(defaultValue, heap);
      GainsOrKeeps(before, i, fields[i].ptr, defaultValue, callers, live, heap.deleted);
      assert heap.live == live + ({fields[i].ptr} - {before[i]});
      assert Ptrs() == before[i := fields[i].ptr];
      s.data := value;
    }

    method Release(i: nat) returns (s: HeapString?)
      requires Valid() && i < |fields|
      modifies `callers, fields[i]
      ensures Valid() && Values() == old(Values())[i := defaultValue.data]
      ensures s == null <==> old(fields[i].ptr) == defaultValue
      ensures fields[i].ptr == defaultValue && (s != null ==> s == old(fields[i].ptr))
      ensures s != null ==> s.data == old(Values())[i] && s !in old(callers)
      ensures callers == old(callers) + if s == null then {} else {s}
    {
      s := fields[i].ReleaseNoArena(defaultValue);
      if s != null {
        callers := callers + {s};
      }
    }

    /** A string of the caller's, or none, takes the place of the field's, which is deleted. */
    method SetAllocated(i: nat, s: HeapString?)
      requires Valid() && i < |fields| && (s != null ==> s in callers)
      modifies `callers, heap, fields[i]
      ensures Valid() && Values() == old(Values())[i := if s == null then defaultValue.data else s.data]
      ensures callers == old(callers) - (if s == null then {} else {s})
      ensures fields[i].ptr == if s == null then defaultValue else s
      ensures heap.deleted == old(heap.deleted) + ({old(fields[i].ptr)} - {defaultValue})
      ensures heap.live == old(heap.live) - ({old(fields[i].ptr)} - {defaultValue})
    {
      Unshared();
      hide Accounted;
      ghost var before, live, deleted := Ptrs(), heap.live, heap.deleted;
      Replaced(before, i, s, defaultValue, callers, live, deleted);
      fields[i].SetAllocatedNoArena(defaultValue, s, heap);
      if s != null {
        callers := callers - {s};
      }
      assert Ptrs() == before[i := fields[i].ptr];
    }

    /** The last field ends. */
    method DestroyLast()
      requires Valid() && fields != []
      modifies heap, `fields
      ensures Valid() && Values() == old(Values())[..|old(fields)| - 1] && callers == old(callers)
      ensures fields == old(fields)[..|old(fields)| - 1]
      ensures var p := old(fields[|fields| - 1].ptr);
        && heap.deleted == old(heap.deleted) + (if p == defaultValue then {} else {p})
        && heap.live == old(heap.live) - (if p == defaultValue then {} else {p})
    {
      var last := fields[|fields| - 1];
      last.DestroyNoArena(defaultValue, heap);
      fields := fields[..|fields| - 1];
    }

    /** Callers may make strings of their own, and delete those they own. */
    method CallerMakes(data: string) returns (s: HeapString)
      requires Valid()
      modifies heap, `callers
      ensures Valid() && callers == old(callers) + {s} && fresh(s) && s.data == data && Values() == old(Values())
      ensures heap.live == old(heap.live) + {s} && heap.deleted == old(heap.deleted)
    {
      s := heap.New(data);
      callers := callers + {s};
    }

    method CallerDeletes(s: HeapString)
      requires Valid() && s in callers
      modifies heap, `callers
      ensures Valid() && callers == old(callers) - {s}
      ensures heap.live == old(heap.live) - {s} && heap.deleted == old(heap.deleted) + {s}
      ensures Values() == old(Values())
    {
      heap.Delete(s);
      callers := callers - {s};
    }

    /** For a default that is the empty string. */
    method ClearToEmpty(i: nat)
      requires Valid() && i < |fields| && defaultValue.data == ""
      modifies if fields[i].ptr == defaultValue then {} else {fields[i].ptr}
      ensures Valid() && Values() == old(Values())[i := ""]
    {
      fields[i].ClearToEmptyNoArena(defaultValue);
    }

    method ClearToDefault(i: nat)
      requires Valid() && i < |fields|
      modifies if fields[i].ptr == defaultValue then {} else {fields[i].ptr}
      ensures Valid() && Values() == old(Values())[i := defaultValue.data]
      ensures defaultValue.data == old(defaultValue.data)
    {
      fields[i].ClearToDefaultNoArena(defaultValue);
    }

    method Assign(i: nat, j: nat)
      requires Valid() && i < |fields| && j < |fields|
      modifies heap, fields[i], if fields[i].ptr == defaultValue then {} else {fields[i].ptr}
      ensures Valid() && Values() == old(Values())[i := old(Values())[j]]
      ensures fields[i].ptr == old(fields[i].ptr) || fresh(fields[i].ptr)
      ensures heap.deleted == old(heap.deleted)
      ensures heap.live == old(heap.live) + ({fields[i].ptr} - {old(fields[i].ptr)})
      ensures defaultValue.data == old(defaultValue.data)
    {
      Unshared();
      hide Accounted;
      ghost var before, live := Ptrs(), heap.live;
      fields[i].AssignWithDefault(defaultValue, fields[j], heap);
      GainsOrKeeps(before, i, fields[i].ptr, defaultValue, callers, live, heap.deleted);
      assert heap.live == live + ({fields[i].ptr} - {before[i]});
      assert Ptrs() == before[i := fields[i].ptr];
    }

    /** Swap in a release build. */
    method SwapRelease(i: nat, j: nat)
      requires Valid() && i < |fields| && j < |fields|
      modifies fields[i], fields[j]
      ensures Valid() && Values() == Swapped(old(Values()), i, j)
      ensures fields[i].ptr == old(fields[j].ptr) && fields[j].ptr == old(fields[i].ptr)
    {
      fields[i].SwapPointers(fields[j]);
    }

    /** Swap in a debug build: other strings move, the values end up the same. */
    method SwapDebug(i: nat, j: nat)
      requires Valid() && i < |fields| && j < |fields|
      modifies heap, fields[i], fields[j]
      modifies if fields[i].ptr == defaultValue then {} else {fields[i].ptr}
      modifies if fields[j].ptr == defaultValue then {} else {fields[j].ptr}
      ensures Valid() && Values() == Swapped(old(Values()), i, j)
      ensures fields[i].ptr == old(fields[i].ptr) || fresh(fields[i].ptr)
      ensures fields[j].ptr == old(fields[j].ptr) || fresh(fields[j].ptr)
      ensures heap.deleted == old(heap.deleted)
      ensures heap.live == old(heap.live) + ({fields[i].ptr, fields[j].ptr} - {old(fields[i].ptr), old(fields[j].ptr)})
      ensures defaultValue.data == old(defaultValue.data)
    {
      Unshared();
      hide Accounted, Swapped;
      ghost var before := Values();
      ghost var ptrs, live := Ptrs(), heap.live;
      fields[i].SwapContents(fields[j], defaultValue, heap);
      SwappedIs(before, Values(), i, j);
      Settle(ptrs, i, j, live);
    }

    lemma Settle(ptrs: seq<HeapString>, i: nat, j: nat, live: set<HeapString>)
      requires i < |fields| == |ptrs| && j < |fields| && forall k, l | 0 <= k < l < |fields| :: fields[k] != fields[l]
      requires Accounted(ptrs, defaultValue, callers, live, heap.deleted)
      requires forall k | 0 <= k < |fields| && k != i && k != j :: fields[k].ptr == ptrs[k]
      requires fields[i].ptr == ptrs[i]
        || (ptrs[i] == defaultValue && fields[i].ptr !in live && fields[i].ptr !in heap.deleted)
      requires fields[j].ptr == ptrs[j]
        || (ptrs[j] == defaultValue && fields[j].ptr !in live && fields[j].ptr !in heap.deleted)
      requires fields[i].ptr == fields[j].ptr ==> i == j || fields[i].ptr == defaultValue
      requires heap.live == live + ({fields[i].ptr, fields[j].ptr} - {ptrs[i], ptrs[j]})
      ensures Valid()
    {
      hide Accounted;
      BothGainOrKeep(ptrs, i, j, fields[i].ptr, fields[j].ptr, defaultValue, callers, live, heap.deleted, heap.live);
      assert Ptrs() == ptrs[i := fields[i].ptr][j := fields[j].ptr];
    }
  }

  lemma SwappedIs(values: seq<string>, after: seq<string>, i: nat, j: nat)
    requires i < |values| && j < |values| && |after| == |values|
    requires after[i] == values[j] && after[j] == values[i]
    requires forall k | 0 <= k < |values| && k != i && k != j :: after[k] == values[k]
    ensures after == Swapped(values, i, j)
  {
  }
}
