/** by_symbol_: one probe of an ordered map stands in for a search over all dotted ancestors of a name. */
module SymbolIndex {
  import opened Prelude
  import opened Symbols
  import opened OrderedMaps

  type SymbolMap<V> = Entries<string, V>

  lemma LessIsTotalOrder()
    ensures TotalOrder(Less)
  {
    forall a, b
      ensures Less(a, b) || a == b || Less(b, a)
      ensures Less(a, b) ==> !Less(b, a)
    {
      LessIsTotal(a, b);
    }
    forall a, b, c | Less(a, b) && Less(b, c)
      ensures Less(a, c)
    {
      LessIsTransitive(a, b, c);
    }
  }

  ghost predicate ValidKeys<V>(m: SymbolMap<V>)
  {
    forall i | 0 <= i < |m| :: ValidName(m[i].0)
  }

  /** The map's invariant: no key is an ancestor of another. */
  ghost predicate PrefixFree<V>(m: SymbolMap<V>)
  {
    forall i, j | 0 <= i < |m| && 0 <= j < |m| && i != j :: !IsSubSymbol(m[i].0, m[j].0)
  }

  /** What every map built by AddSymbol satisfies, prefix-free or not. */
  ghost predicate WellFormed<V>(m: SymbolMap<V>)
  {
    Sorted(Less, m) && ValidKeys(m)
  }

  /** Step back from upper_bound, except at the beginning: then the first key, though it is after the name. */
  function FindLastLessOrEqual<V>(m: SymbolMap<V>, name: string): (r: nat)
    ensures r < |m| || (r == 0 && m == [])
  {
    var u := UpperBound(Less, m, name);
    if u > 0 then u - 1 else 0
  }

  function FindSymbol<V>(m: SymbolMap<V>, name: string): Option<V>
  {
    var i := FindLastLessOrEqual(m, name);
    if i < |m| && IsSubSymbol(m[i].0, name) then Some(m[i].1) else None
  }

  /** The simple form: look at every key for one that equals the name or is an ancestor of it. */
  function Scan<V>(m: SymbolMap<V>, name: string): (r: Option<V>)
    ensures r.Some? ==> exists i :: 0 <= i < |m| && IsSubSymbol(m[i].0, name) && m[i].1 == r.value
    ensures r.None? ==> forall i | 0 <= i < |m| :: !IsSubSymbol(m[i].0, name)
  {
    if m == [] then None
    else if IsSubSymbol(m[0].0, name) then Some(m[0].1)
    else
      var r := Scan(m[1..], name);
      assert r.Some? ==> exists i :: 0 <= i < |m[1..]| && IsSubSymbol(m[1..][i].0, name) && m[1..][i].1 == r.value;
      assert forall i | 1 <= i < |m| :: m[i] == m[1..][i - 1];
      r
  }

  /** A key that matches is the one found: the header's argument, for any search string. */
  lemma MatchIsFound<V>(m: SymbolMap<V>, name: string, i: nat)
    requires WellFormed(m) && PrefixFree(m)
    requires i < |m| && IsSubSymbol(m[i].0, name)
    ensures i == FindLastLessOrEqual(m, name)
  {
    LessIsTotalOrder();
    UpperBoundSplits(Less, m, name);
    AncestorNotAfter(m[i].0, name);
    var f := FindLastLessOrEqual(m, name);
    if i < f {
      BetweenIsDescendant(m[i].0, m[f].0, name);
      assert false;
    }
  }

  /** For a prefix-free map of valid names and any search string, the probe finds what a full scan finds. */
  lemma FindSymbolIsScan<V>(m: SymbolMap<V>, name: string)
    requires WellFormed(m) && PrefixFree(m)
    ensures FindSymbol(m, name) == Scan(m, name)
  {
    hide IsSubSymbol, WellFormed, PrefixFree, FindLastLessOrEqual;
    if Scan(m, name).Some? {
      var i :| 0 <= i < |m| && IsSubSymbol(m[i].0, name) && m[i].1 == Scan(m, name).value;
      MatchIsFound(m, name, i);
    }
  }

  /** And at most one key matches. */
  lemma MatchIsUnique<V>(m: SymbolMap<V>, name: string, i: nat, j: nat)
    requires WellFormed(m) && PrefixFree(m)
    requires i < |m| && j < |m| && IsSubSymbol(m[i].0, name) && IsSubSymbol(m[j].0, name)
    ensures i == j
  {
    MatchIsFound(m, name, i);
    MatchIsFound(m, name, j);
  }

  /** A key itself is always found, even when the map is not prefix-free. */
  lemma KeyIsFound<V>(m: SymbolMap<V>, name: string, v: V)
    requires WellFormed(m) && (name, v) in m
    ensures FindSymbol(m, name) == Some(v)
  {
    hide TotalOrder, Less, UpperBound, ValidName;
    LessIsTotalOrder();
    UpperBoundSplits(Less, m, name);
    var i :| 0 <= i < |m| && m[i] == (name, v);
    var u := UpperBound(Less, m, name);
    LessIsTotal(name, name);
    assert i < u;
    assert u == i + 1 by {
      if i + 1 < u {
        LessIsTotal(name, m[i + 1].0);
      }
    }
  }

  /** AddSymbol: None when the name is invalid or in conflict with the key before it or after it. */
  function AddSymbol<V>(m: SymbolMap<V>, name: string, v: V): Option<SymbolMap<V>>
  {
    var i := FindLastLessOrEqual(m, name);
    if !ValidName(name) then None
    else if m == [] then Some([(name, v)])
    else if IsSubSymbol(m[i].0, name) then None
    else if i + 1 < |m| && IsSubSymbol(name, m[i + 1].0) then None
    else Some(Insert(Less, m, name, v))
  }

  ghost predicate Conflicts<V>(m: SymbolMap<V>, name: string)
  {
    exists i :: 0 <= i < |m| && (IsSubSymbol(m[i].0, name) || IsSubSymbol(name, m[i].0))
  }

  /** The case AddSymbol steps over: the smallest key descends from the name, and the next one, if any, does not. */
  predicate SkipsDescendant<V>(m: SymbolMap<V>, name: string)
  {
    m != [] && name != m[0].0 && IsSubSymbol(name, m[0].0) && !(|m| > 1 && IsSubSymbol(name, m[1].0))
  }

  /** A descendant of the name shows up right after the keys that are not after the name. */
  lemma FirstAfterDescends<V>(m: SymbolMap<V>, name: string, i: nat)
    requires WellFormed(m) && i < |m|
    requires IsSubSymbol(name, m[i].0) && m[i].0 != name
    ensures var u := UpperBound(Less, m, name);
      u <= i && forall j | u <= j <= i :: IsSubSymbol(name, m[j].0)
  {
    hide TotalOrder, UpperBound, IsSubSymbol, Less;
    LessIsTotalOrder();
    UpperBoundSplits(Less, m, name);
    AncestorNotAfter(name, m[i].0);
    LessIsTotal(name, m[i].0);
    var u := UpperBound(Less, m, name);
    forall j | u <= j <= i
      ensures IsSubSymbol(name, m[j].0)
    {
      BetweenIsDescendant(name, m[j].0, m[i].0);
    }
  }

  lemma SkipMeansFirstIsAfter<V>(m: SymbolMap<V>, name: string)
    requires WellFormed(m)
    requires SkipsDescendant(m, name)
    ensures UpperBound(Less, m, name) == 0 && FindLastLessOrEqual(m, name) == 0
    ensures ValidName(name) && !IsSubSymbol(m[0].0, name)
  {
    FirstAfterDescends(m, name, 0);
    AncestorIsValid(name, m[0].0);
  }

  /** AddSymbol accepts a valid name without conflicts, and also the one case it steps over. */
  lemma AddSymbolAccepts<V>(m: SymbolMap<V>, name: string, v: V)
    requires WellFormed(m) && PrefixFree(m)
    ensures AddSymbol(m, name, v).Some? <==> ValidName(name) && (!Conflicts(m, name) || SkipsDescendant(m, name))
  {
    var f, u := FindLastLessOrEqual(m, name), UpperBound(Less, m, name);
    if ValidName(name) && Conflicts(m, name) {
      var i :| 0 <= i < |m| && (IsSubSymbol(m[i].0, name) || IsSubSymbol(name, m[i].0));
      if IsSubSymbol(m[i].0, name) {
        MatchIsFound(m, name, i);
      } else {
        FirstAfterDescends(m, name, i);
        if u > 0 {
          assert u == f + 1;
          assert !SkipsDescendant(m, name) by {
            if SkipsDescendant(m, name) { SkipMeansFirstIsAfter(m, name); }
          }
        } else {
          assert IsSubSymbol(name, m[0].0);
          assert name != m[0].0;
          assert UpperBound(Less, m, name) == 0;
        }
      }
    }
  }

  /** So AddSymbol accepts exactly the valid names free of conflicts if and only if it does not step over one. */
  lemma AddSymbolIsExact<V>(m: SymbolMap<V>, name: string, v: V)
    requires WellFormed(m) && PrefixFree(m)
    ensures (AddSymbol(m, name, v).Some? <==> ValidName(name) && !Conflicts(m, name)) <==> !SkipsDescendant(m, name)
  {
    AddSymbolAccepts(m, name, v);
    if SkipsDescendant(m, name) {
      SkipMeansFirstIsAfter(m, name);
      assert Conflicts(m, name);
    }
  }

  /** An accepted name is new; the map gains that one entry and stays sorted and valid, prefix-free or not. */
  lemma AddSymbolAddsOne<V>(m: SymbolMap<V>, name: string, v: V)
    requires WellFormed(m) && AddSymbol(m, name, v).Some?
    ensures WellFormed(AddSymbol(m, name, v).value)
    ensures forall e :: e in AddSymbol(m, name, v).value <==> e == (name, v) || e in m
    ensures forall e | e in m :: e.0 != name
  {
    LessIsTotalOrder();
    forall e | e in m
      ensures e.0 != name
    {
      if e.0 == name {
        KeyIsFound(m, name, e.1);
      }
    }
    InsertAdds(Less, m, name, v);
    assert m == [] ==> Insert(Less, m, name, v) == [(name, v)];
    var r := AddSymbol(m, name, v).value;
    forall i | 0 <= i < |r|
      ensures ValidName(r[i].0)
    {
      assert r[i] in r;
    }
  }

  /** An accepted name keeps the map prefix-free if and only if it was prefix-free and nothing was stepped over. */
  lemma AddSymbolPrefixFree<V>(m: SymbolMap<V>, name: string, v: V)
    requires WellFormed(m) && AddSymbol(m, name, v).Some?
    ensures PrefixFree(AddSymbol(m, name, v).value) <==> PrefixFree(m) && !SkipsDescendant(m, name)
  {
    hide TotalOrder, UpperBound, IsSubSymbol, Less, AddSymbol, ValidName;
    AddSymbolAddsOne(m, name, v);
    var r := AddSymbol(m, name, v).value;
    PrefixFreeByEntries(m);
    PrefixFreeByEntries(r);
    assert (name, v) in r;
    if PrefixFree(m) && !SkipsDescendant(m, name) {
      AddSymbolAccepts(m, name, v);
      assert forall e | e in m :: !IsSubSymbol(e.0, name) && !IsSubSymbol(name, e.0);
      assert PrefixFree(r);
    }
    if PrefixFree(r) {
      assert forall e | e in m :: e in r;
      assert PrefixFree(m);
      assert m != [] ==> m[0] in r;
    }
  }

  lemma PrefixFreeByEntries<V>(m: SymbolMap<V>)
    requires WellFormed(m)
    ensures PrefixFree(m) <==> forall e, f | e in m && f in m && e.0 != f.0 :: !IsSubSymbol(e.0, f.0)
  {
    LessIsTotalOrder();
    assert forall i, j | 0 <= i < |m| && 0 <= j < |m| && i != j :: m[i] in m && m[j] in m && m[i].0 != m[j].0;
  }

  /** "foo" is accepted beside "foo.bar", and from then on hides itself from a search below it. */
  lemma FooAfterFooBar<V>(v: V, w: V)
    ensures AddSymbol([("foo.bar", v)], "foo", w) == Some([("foo", w), ("foo.bar", v)])
    ensures Conflicts([("foo.bar", v)], "foo")
    ensures FindSymbol([("foo", w), ("foo.bar", v)], "foo.zed") == None
    ensures Scan([("foo", w), ("foo.bar", v)], "foo.zed") == Some(w)
  {
    var m: SymbolMap<V> := [("foo.bar", v)];
    assert IsSubSymbol("foo", m[0].0);
    AncestorNotAfter("foo", "foo.bar");
    LessIsTotal("foo", "foo.bar");
    assert UpperBound(Less, m, "foo") == 0;
    assert m[..0] + [("foo", w)] + m[0..] == [("foo", w), ("foo.bar", v)];
    assert ValidName("foo");
    var n: SymbolMap<V> := [("foo", w), ("foo.bar", v)];
    AncestorNotAfter("foo", "foo.zed");
    LessIsTotal("foo", "foo.zed");
    assert IsSubSymbol("foo", "foo.zed");
    FooBarBeforeFooZed();
    assert n[1..] == [("foo.bar", v)];
    assert UpperBound(Less, n[1..][1..], "foo.zed") == 0;
    assert UpperBound(Less, n[1..], "foo.zed") == 1;
    assert UpperBound(Less, n, "foo.zed") == 2;
  }

  lemma FooBarBeforeFooZed()
    ensures Less("foo.bar", "foo.zed") && !Less("foo.zed", "foo.bar")
    ensures !IsSubSymbol("foo.bar", "foo.zed") && !IsSubSymbol("foo.bar", "foo")
  {
    assert "foo.bar"[4] != "foo.zed"[4];
    assert "foo.bar"[1..] == "oo.bar" && "oo.bar"[1..] == "o.bar" && "o.bar"[1..] == ".bar" && ".bar"[1..] == "bar";
    assert "foo.zed"[1..] == "oo.zed" && "oo.zed"[1..] == "o.zed" && "o.zed"[1..] == ".zed" && ".zed"[1..] == "zed";
    assert Less("bar", "zed");
    assert Less(".bar", ".zed");
    assert Less("o.bar", "o.zed");
    assert Less("oo.bar", "oo.zed");
    LessIsTotal("foo.bar", "foo.zed");
  }
}
