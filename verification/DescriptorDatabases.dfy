/** The databases of file descriptors: an index filled file by file, and a list of databases searched in order. */
module DescriptorDatabases {
  import opened Prelude
  import opened Symbols
  import opened OrderedMaps
  import opened SymbolIndex
  import opened DescriptorIndexes
  import opened DescriptorAnswers

  class DescriptorIndex {
    var byName: Entries<string, File>
    var bySymbol: SymbolMap<File>
    var byExtension: ExtensionMap

    constructor ()
      ensures State() == EMPTY
    {
      byName, bySymbol, byExtension := [], [], [];
    }

    function State(): Index
      reads this
    {
      Index(byName, bySymbol, byExtension)
    }

    method AddFile(file: File) returns (ok: bool)
      modifies this
      ensures (State(), ok) == DescriptorIndexes.AddFile(old(State()), file)
    {
      hide Insert;
      if Lookup(byName, file.name).Some? { return false; }
      byName := Insert(Less, byName, file.name, file);
      var path := if file.package.Some? then file.package.value else "";
      if path != "" { path := path + "."; }
      ghost var m, e := MessageSteps(path, file.messages), SymbolSteps(path, file.enums);
      ghost var x, s := FieldSteps(path, file.extensions), SymbolSteps(path, file.services);
      RunStepsConcat(State(), m, e + (x + s), file);
      ok := AddMessages(path, file.messages, file);
      if !ok { return; }
      RunStepsConcat(State(), e, x + s, file);
      ok := AddSymbols(path, file.enums, file);
      if !ok { return; }
      RunStepsConcat(State(), x, s, file);
      ok := AddExtensions(path, file.extensions, file);
      if !ok { return; }
      ok := AddSymbols(path, file.services, file);
    }

    /** The loop of AddFile over the messages. */
    method AddMessages(path: string, ms: seq<Message>, file: File) returns (ok: bool)
      modifies this
      ensures (State(), ok) == RunSteps(old(State()), MessageSteps(path, ms), file)
    {
      hide ApplyStep, NestedSteps;
      ghost var result := RunSteps(State(), MessageSteps(path, ms), file);
      var i := 0;
      while i < |ms|
        invariant i <= |ms|
        invariant RunSteps(State(), MessageSteps(path, ms[i..]), file) == result
      {
        assert ms[i..][1..] == ms[i + 1..];
        var head, nested := [Symbol(path + ms[i].name)], NestedSteps(ms[i]);
        RunStepsConcat(State(), head + nested, MessageSteps(path, ms[i + 1..]), file);
        RunStepsConcat(State(), head, nested, file);
        RunOneStep(State(), Symbol(path + ms[i].name), file);
        ok := AddSymbol(path + ms[i].name, file);
        if !ok { return; }
        ok := AddNestedExtensions(ms[i], file);
        if !ok { return; }
        i := i + 1;
      }
      ok := true;
    }

    /** The loops of AddFile over the enums and over the services. */
    method AddSymbols(path: string, names: seq<string>, file: File) returns (ok: bool)
      modifies this
      ensures (State(), ok) == RunSteps(old(State()), SymbolSteps(path, names), file)
    {
      hide ApplyStep;
      ghost var result := RunSteps(State(), SymbolSteps(path, names), file);
      var i := 0;
      while i < |names|
        invariant i <= |names|
        invariant RunSteps(State(), SymbolSteps(path, names[i..]), file) == result
      {
        assert names[i..][1..] == names[i + 1..];
        RunStepsConcat(State(), [Symbol(path + names[i])], SymbolSteps(path, names[i + 1..]), file);
        RunOneStep(State(), Symbol(path + names[i]), file);
        ok := AddSymbol(path + names[i], file);
        if !ok { return; }
        i := i + 1;
      }
      ok := true;
    }

    /** The loop of AddFile over the extensions: each is a symbol and an extension. */
    method AddExtensions(path: string, fields: seq<Field>, file: File) returns (ok: bool)
      modifies this
      ensures (State(), ok) == RunSteps(old(State()), FieldSteps(path, fields), file)
    {
      hide ApplyStep;
      ghost var result := RunSteps(State(), FieldSteps(path, fields), file);
      var i := 0;
      while i < |fields|
        invariant i <= |fields|
        invariant RunSteps(State(), FieldSteps(path, fields[i..]), file) == result
      {
        assert fields[i..][1..] == fields[i + 1..];
        var s, x := Symbol(path + fields[i].name), Extension(fields[i]);
        RunStepsConcat(State(), [s, x], FieldSteps(path, fields[i + 1..]), file);
        assert [s] + [x] == [s, x];
        RunStepsConcat(State(), [s], [x], file);
        RunOneStep(State(), s, file);
        ok := AddSymbol(path + fields[i].name, file);
        if !ok { return; }
        RunOneStep(State(), x, file);
        ok := AddExtension(fields[i], file);
        if !ok { return; }
        i := i + 1;
      }
      ok := true;
    }

    method AddSymbol(name: string, value: File) returns (ok: bool)
      modifies `bySymbol
      ensures ok <==> ApplyStep(old(State()), Symbol(name), value).Some?
      ensures State() == if ok then ApplyStep(old(State()), Symbol(name), value).value else old(State())
    {
      hide UpperBound, IsSubSymbol, Less;
      var valid := ValidateSymbolName(name);
      if !valid { return false; }
      var iter := FindLastLessOrEqual(bySymbol, name);
      if iter == |bySymbol| {
        bySymbol := [(name, value)];
        return true;
      }
      if IsSubSymbol(bySymbol[iter].0, name) { return false; }
      iter := iter + 1;
      if iter != |bySymbol| && IsSubSymbol(name, bySymbol[iter].0) { return false; }
      bySymbol := Insert(Less, bySymbol, name, value);
      return true;
    }

    method ValidateSymbolName(name: string) returns (ok: bool)
      ensures ok <==> ValidName(name)
      ensures ok <==> forall c | c in name ::
        c == '.' || c == '_' || '0' <= c <= '9' || 'A' <= c <= 'Z' || 'a' <= c <= 'z'
    {
      for i := 0 to |name|
        invariant forall j | 0 <= j < i :: ValidChar(name[j])
      {
        assert name[i] in name;
        if name[i] != '.' && name[i] != '_' && (name[i] < '0' || name[i] > '9')
           && (name[i] < 'A' || name[i] > 'Z') && (name[i] < 'a' || name[i] > 'z') {
          return false;
        }
      }
      return true;
    }

    method AddNestedExtensions(m: Message, value: File) returns (ok: bool)
      modifies `byExtension
      ensures (State(), ok) == RunSteps(old(State()), NestedSteps(m), value)
      decreases m
    {
      hide ApplyStep;
      RunStepsConcat(State(), AllNestedSteps(m.nested), ExtensionSteps(m.extensions), value);
      ghost var result := RunSteps(State(), AllNestedSteps(m.nested), value);
      assert m.nested[0..] == m.nested;
      var i := 0;
      while i < |m.nested|
        invariant i <= |m.nested|
        invariant RunSteps(State(), AllNestedSteps(m.nested[i..]), value) == result
        invariant bySymbol == old(bySymbol) && byName == old(byName)
      {
        assert m.nested[i..][1..] == m.nested[i + 1..];
        RunStepsConcat(State(), NestedSteps(m.nested[i]), AllNestedSteps(m.nested[i + 1..]), value);
        ok := AddNestedExtensions(m.nested[i], value);
        if !ok { return; }
        i := i + 1;
      }
      ok := AddOwnExtensions(m.extensions, value);
    }

    /** The second loop of AddNestedExtensions. */
    method AddOwnExtensions(fields: seq<Field>, value: File) returns (ok: bool)
      modifies `byExtension
      ensures (State(), ok) == RunSteps(old(State()), ExtensionSteps(fields), value)
    {
      hide ApplyStep;
      ghost var result := RunSteps(State(), ExtensionSteps(fields), value);
      var i := 0;
      while i < |fields|
        invariant i <= |fields|
        invariant RunSteps(State(), ExtensionSteps(fields[i..]), value) == result
        invariant bySymbol == old(bySymbol) && byName == old(byName)
      {
        assert fields[i..][1..] == fields[i + 1..];
        RunStepsConcat(State(), [Extension(fields[i])], ExtensionSteps(fields[i + 1..]), value);
        RunOneStep(State(), Extension(fields[i]), value);
        ok := AddExtension(fields[i], value);
        if !ok { return; }
        i := i + 1;
      }
      ok := true;
    }

    method AddExtension(field: Field, value: File) returns (ok: bool)
      modifies `byExtension
      ensures ok <==> ApplyStep(old(State()), Extension(field), value).Some?
      ensures State() == if ok then ApplyStep(old(State()), Extension(field), value).value else old(State())
    {
      hide Insert, KeyLess;
      if field.extendee != "" && field.extendee[0] == '.' {
        var key := ExtensionKey(field.extendee[1..], field.number);
        if Lookup(byExtension, key).Some? { return false; }
        byExtension := Insert(KeyLess, byExtension, key, value);
      }
      return true;
    }

    /** Appends the registered non-negative numbers of the type; true when there is one. */
    method FindAllExtensionNumbers(extendee: string, output: seq<int32>) returns (success: bool, r: seq<int32>)
      ensures r == output + ExtensionNumbers(byExtension, extendee)
      ensures success <==> ExtensionNumbers(byExtension, extendee) != []
    {
      hide LowerBound;
      var it := LowerBound(KeyLess, byExtension, ExtensionKey(extendee, 0));
      ghost var start := it;
      success, r := false, output;
      while it < |byExtension| && byExtension[it].0.extendee == extendee
        invariant it <= |byExtension|
        invariant r + LeadingNumbers(byExtension[it..], extendee)
               == output + LeadingNumbers(byExtension[start..], extendee)
        invariant |r| >= |output| && (success <==> |r| > |output|)
      {
        assert byExtension[it..][1..] == byExtension[it + 1..];
        r := r + [byExtension[it].0.number];
        success := true;
        it := it + 1;
      }
      assert LeadingNumbers(byExtension[it..], extendee) == [];
      assert |r| == |output| + |LeadingNumbers(byExtension[start..], extendee)|;
    }

    method FindAllFileNames() returns (r: seq<string>)
      ensures |r| == |byName| && forall i | 0 <= i < |r| :: r[i] == byName[i].0
    {
      r := [];
      for i := 0 to |byName|
        invariant |r| == i && forall j | 0 <= j < i :: r[j] == byName[j].0
      {
        r := r + [byName[i].0];
      }
    }
  }

  lemma RunOneStep(ix: Index, step: Step, file: File)
    ensures RunSteps(ix, [step], file)
         == match ApplyStep(ix, step, file) case None => (ix, false) case Some(next) => (next, true)
  {
    hide ApplyStep;
    assert [step][1..] == [];
  }

  class SimpleDescriptorDatabase {
    const index: DescriptorIndex
    var filesToDelete: seq<File>

    constructor ()
      ensures State() == EMPTY && fresh(index) && filesToDelete == []
    {
      index := new DescriptorIndex();
      filesToDelete := [];
    }

    function State(): Index
      reads index
    {
      index.State()
    }

    /** The database owns every file it was given, also one that its index refuses. */
    method Add(file: File) returns (ok: bool)
      modifies this, index
      ensures (State(), ok) == DescriptorIndexes.AddFile(old(State()), file)
      ensures filesToDelete == old(filesToDelete) + [file]
      ensures old(Coherent(State())) ==> Coherent(State())
    {
      AddKeepsCoherent(State(), file);
      filesToDelete := filesToDelete + [file];
      ok := index.AddFile(file);
    }

    function FindFileByName(name: string): (r: Option<File>)
      reads index
      ensures Coherent(State()) ==> forall f :: r == Some(f) <==> (name, f) in index.byName
    {
      FileEntries(State(), name);
      Lookup(index.byName, name)
    }

    function FindFileContainingSymbol(name: string): (r: Option<File>)
      reads index
      ensures Coherent(State()) && PrefixFree(index.bySymbol) ==>
        forall f :: r == Some(f) <==> Leads(index.bySymbol, name, f)
    {
      SymbolEntries(State(), name);
      FindSymbol(index.bySymbol, name)
    }

    function FindFileContainingExtension(extendee: string, number: int32): (r: Option<File>)
      reads index
      ensures Coherent(State()) ==>
        forall f :: r == Some(f) <==> (ExtensionKey(extendee, number), f) in index.byExtension
    {
      ExtensionEntries(State(), extendee, number);
      Lookup(index.byExtension, ExtensionKey(extendee, number))
    }
  }

  class MergedDescriptorDatabase {
    const sources: seq<SimpleDescriptorDatabase>

    constructor (sources: seq<SimpleDescriptorDatabase>)
      ensures this.sources == sources
    {
      this.sources := sources;
    }

    ghost function States(): (r: seq<Index>)
      reads set s | s in sources :: s.index
      ensures |r| == |sources| && forall i | 0 <= i < |r| :: r[i] == sources[i].State()
    {
      seq(|sources|, i requires 0 <= i < |sources| reads if 0 <= i < |sources| then {sources[i].index} else {}
        => sources[i].State())
    }

    method FindFileByName(name: string) returns (output: Option<File>)
      ensures output == MergedFile(States(), name)
      ensures AllCoherent(States()) ==>
        forall f :: output == Some(f) <==> exists i :: FileAnswer(States(), i, name, f)
    {
      MergedFiles(States(), name);
      ghost var states := States();
      assert states[0..] == states;
      for i := 0 to |sources|
        invariant MergedFile(states[i..], name) == MergedFile(states, name)
      {
        assert states[i..][1..] == states[i + 1..];
        output := sources[i].FindFileByName(name);
        if output.Some? { return; }
      }
      output := None;
    }

    method FindFileContainingSymbol(name: string) returns (output: Option<File>)
      ensures output == MergedFind(States(), SymbolFinder(name))
      ensures AllCoherent(States()) && AllPrefixFree(States()) ==>
        forall f :: output == Some(f) <==> exists i :: SymbolAnswer(States(), i, name, f)
    {
      MergedSymbols(States(), name);
      hide MergedFind, FindSymbol, Lookup, AllCoherent, AllPrefixFree, SymbolAnswer, Coherent;
      ghost var find := SymbolFinder(name);
      for i := 0 to |sources|
        invariant forall k | 0 <= k < i :: find(States()[k]).None?
      {
        output := sources[i].FindFileContainingSymbol(name);
        if output.Some? {
          for j := 0 to i
            invariant forall k | 0 <= k < j :: Lookup(States()[k].names, output.value.name).None?
          {
            var temp := sources[j].FindFileByName(output.value.name);
            if temp.Some? {
              Shadowed(States(), find, i, j);
              return None;
            }
          }
          Exposed(States(), find, i);
          return;
        }
      }
      NotFound(States(), find);
      output := None;
    }

    method FindFileContainingExtension(extendee: string, number: int32) returns (output: Option<File>)
      ensures output == MergedFind(States(), ExtensionFinder(ExtensionKey(extendee, number)))
      ensures AllCoherent(States()) ==>
        forall f :: output == Some(f) <==> exists i :: ExtensionAnswer(States(), i, extendee, number, f)
    {
      MergedExtensions(States(), extendee, number);
      hide MergedFind, Lookup, AllCoherent, ExtensionAnswer, Coherent;
      ghost var find := ExtensionFinder(ExtensionKey(extendee, number));
      for i := 0 to |sources|
        invariant forall k | 0 <= k < i :: find(States()[k]).None?
      {
        output := sources[i].FindFileContainingExtension(extendee, number);
        if output.Some? {
          for j := 0 to i
            invariant forall k | 0 <= k < j :: Lookup(States()[k].names, output.value.name).None?
          {
            var temp := sources[j].FindFileByName(output.value.name);
            if temp.Some? {
              Shadowed(States(), find, i, j);
              return None;
            }
          }
          Exposed(States(), find, i);
          return;
        }
      }
      NotFound(States(), find);
      output := None;
    }

    /** Appends the sorted, duplicate-free union over the sources; succeeds when one source did. */
    method FindAllExtensionNumbers(extendee: string, output: seq<int32>) returns (success: bool, r: seq<int32>)
      ensures success <==> AnyRegistered(States(), extendee)
      ensures output <= r && Ascending(r[|output|..])
      ensures forall n :: n in r[|output|..] <==> Registered(States(), extendee, n)
    {
      hide Registered, AnyRegistered, Ascending, ExtensionNumbers;
      ghost var states := States();
      var merged: seq<int32> := [];
      var results: seq<int32> := [];
      success := false;
      NoneRegistered(extendee);
      for i := 0 to |sources|
        invariant results == []
        invariant Ascending(merged)
        invariant success <==> AnyRegistered(states[..i], extendee)
        invariant forall n :: n in merged <==> Registered(states[..i], extendee, n)
      {
        OneMoreSource(states, extendee, i);
        var found;
        found, results := sources[i].index.FindAllExtensionNumbers(extendee, results);
        assert results == ExtensionNumbers(states[i].extensions, extendee);
        if found {
          merged := InsertAll(merged, results);
          success := true;
        }
        results := [];
      }
      assert states[..|sources|] == states;
      r := output + merged;
      assert r[|output|..] == merged;
    }
  }

  ghost predicate Registered(sources: seq<Index>, extendee: string, n: int32)
  {
    exists i :: 0 <= i < |sources| && n in ExtensionNumbers(sources[i].extensions, extendee)
  }

  ghost predicate AnyRegistered(sources: seq<Index>, extendee: string)
  {
    exists i :: 0 <= i < |sources| && ExtensionNumbers(sources[i].extensions, extendee) != []
  }

  /** A number is registered when it is not negative and some source has an entry for it. */
  lemma RegisteredIsEntry(sources: seq<Index>, extendee: string, n: int32)
    requires AllCoherent(sources)
    ensures Registered(sources, extendee, n)
       <==> n >= 0 && exists i :: 0 <= i < |sources| && HasExtension(sources[i], extendee, n)
  {
    hide ExtensionNumbers, Coherent;
    forall i | 0 <= i < |sources|
      ensures n in ExtensionNumbers(sources[i].extensions, extendee)
         <==> n >= 0 && HasExtension(sources[i], extendee, n)
    {
      NumberIsEntry(sources[i], extendee, n);
    }
  }

  lemma NumberIsEntry(ix: Index, extendee: string, n: int32)
    requires Coherent(ix)
    ensures n in ExtensionNumbers(ix.extensions, extendee) <==> n >= 0 && HasExtension(ix, extendee, n)
  {
    hide KeyLess, ExtensionNumbers;
    ExtensionNumbersAreAll(ix.extensions, extendee, n);
    if i :| 0 <= i < |ix.extensions| && ix.extensions[i].0 == ExtensionKey(extendee, n) {
      assert ix.extensions[i] in ix.extensions;
    }
  }

  lemma NoneRegistered(extendee: string)
    ensures Ascending([]) && !AnyRegistered([], extendee) && forall n :: !Registered([], extendee, n)
  {
  }

  lemma OneMoreSource(sources: seq<Index>, extendee: string, i: nat)
    requires i < |sources|
    ensures AnyRegistered(sources[..i + 1], extendee)
       <==> AnyRegistered(sources[..i], extendee) || ExtensionNumbers(sources[i].extensions, extendee) != []
    ensures forall n ::
      Registered(sources[..i + 1], extendee, n)
      <==> Registered(sources[..i], extendee, n) || n in ExtensionNumbers(sources[i].extensions, extendee)
  {
    hide ExtensionNumbers;
    assert sources[..i + 1] == sources[..i] + [sources[i]];
    assert forall k | 0 <= k < i :: sources[..i + 1][k] == sources[..i][k];
    assert sources[..i + 1][i] == sources[i];
  }

  lemma MergedFiles(sources: seq<Index>, name: string)
    ensures AllCoherent(sources) ==>
      forall f :: MergedFile(sources, name) == Some(f) <==> exists i :: FileAnswer(sources, i, name, f)
  {
    hide AllCoherent, FileAnswer, MergedFile;
    if AllCoherent(sources) {
      forall f
        ensures MergedFile(sources, name) == Some(f) <==> exists i :: FileAnswer(sources, i, name, f)
      {
        MergedFileIsEntry(sources, name, f);
      }
    }
  }

  lemma MergedSymbols(sources: seq<Index>, name: string)
    ensures AllCoherent(sources) && AllPrefixFree(sources) ==>
      forall f ::
        MergedFind(sources, SymbolFinder(name)) == Some(f) <==> exists i :: SymbolAnswer(sources, i, name, f)
  {
    hide AllCoherent, AllPrefixFree, SymbolAnswer, MergedFind, SymbolFinder;
    if AllCoherent(sources) && AllPrefixFree(sources) {
      forall f
        ensures MergedFind(sources, SymbolFinder(name)) == Some(f) <==> exists i :: SymbolAnswer(sources, i, name, f)
      {
        MergedSymbolIsEntry(sources, name, f);
      }
    }
  }

  lemma MergedExtensions(sources: seq<Index>, extendee: string, number: int32)
    ensures AllCoherent(sources) ==>
      forall f ::
        MergedFind(sources, ExtensionFinder(ExtensionKey(extendee, number))) == Some(f)
        <==> exists i :: ExtensionAnswer(sources, i, extendee, number, f)
  {
    hide AllCoherent, ExtensionAnswer, MergedFind, ExtensionFinder;
    if AllCoherent(sources) {
      forall f
        ensures MergedFind(sources, ExtensionFinder(ExtensionKey(extendee, number))) == Some(f)
           <==> exists i :: ExtensionAnswer(sources, i, extendee, number, f)
      {
        MergedExtensionIsEntry(sources, extendee, number, f);
      }
    }
  }

  lemma Exposed(sources: seq<Index>, find: Index -> Option<File>, i: nat)
    requires i < |sources| && find(sources[i]).Some? && forall k | 0 <= k < i :: find(sources[k]).None?
    requires forall k | 0 <= k < i :: Lookup(sources[k].names, find(sources[i]).value.name).None?
    ensures MergedFind(sources, find) == find(sources[i])
  {
  }

  lemma Shadowed(sources: seq<Index>, find: Index -> Option<File>, i: nat, j: nat)
    requires i < |sources| && find(sources[i]).Some? && forall k | 0 <= k < i :: find(sources[k]).None?
    requires j < i && Lookup(sources[j].names, find(sources[i]).value.name).Some?
    ensures MergedFind(sources, find) == None
  {
    assert FirstFound(sources, find) == i;
  }

  lemma NotFound(sources: seq<Index>, find: Index -> Option<File>)
    requires forall k | 0 <= k < |sources| :: find(sources[k]).None?
    ensures MergedFind(sources, find) == None
  {
  }

  /** The place of a number in an ascending list. */
  function NumberPlace(s: seq<int32>, n: int32): (r: nat)
    ensures r <= |s| && (forall i | 0 <= i < r :: s[i] < n) && (r < |s| ==> n <= s[r])
  {
    if s == [] || n <= s[0] then 0
    else
      assert forall i | 1 <= i < |s| :: s[i] == s[1..][i - 1];
      1 + NumberPlace(s[1..], n)
  }

  /** std::set<int>, by its ascending elements: inserting a range. */
  method InsertAll(s: seq<int32>, numbers: seq<int32>) returns (r: seq<int32>)
    requires Ascending(s)
    ensures Ascending(r) && forall n :: n in r <==> n in s || n in numbers
  {
    r := s;
    for i := 0 to |numbers|
      invariant Ascending(r) && forall n :: n in r <==> n in s || n in numbers[..i]
    {
      var p := NumberPlace(r, numbers[i]);
      if p == |r| || r[p] != numbers[i] {
        InsertNumber(r, numbers[i]);
        r := r[..p] + [numbers[i]] + r[p..];
      }
      assert numbers[..i + 1] == numbers[..i] + [numbers[i]];
    }
  }

  lemma InsertNumber(s: seq<int32>, n: int32)
    requires Ascending(s) && n !in s
    ensures var p := NumberPlace(s, n); var r := s[..p] + [n] + s[p..];
      Ascending(r) && forall k :: k in r <==> k in s || k == n
  {
    hide Ascending;
    InsertAscending(s, n);
    InsertElements(s, NumberPlace(s, n), n);
  }

  lemma InsertAscending(s: seq<int32>, n: int32)
    requires Ascending(s) && n !in s
    ensures var p := NumberPlace(s, n); Ascending(s[..p] + [n] + s[p..])
  {
    var p := NumberPlace(s, n);
    var r := s[..p] + [n] + s[p..];
    hide NumberPlace;
    forall i, j | 0 <= i < j < |r|
      ensures r[i] < r[j]
    {
      assert p < |s| ==> s[p] != n;
      assert j > p ==> r[j] == s[j - 1] && s[p] <= s[j - 1];
      assert i > p ==> r[i] == s[i - 1];
    }
  }

  lemma InsertElements(s: seq<int32>, p: nat, n: int32)
    requires p <= |s|
    ensures forall k :: k in s[..p] + [n] + s[p..] <==> k in s || k == n
  {
    assert s == s[..p] + s[p..];
  }

  lemma AddKeepsCoherent(ix: Index, file: File)
    ensures Coherent(ix) ==> Coherent(DescriptorIndexes.AddFile(ix, file).0)
  {
    hide Coherent, DescriptorIndexes.AddFile;
    if Coherent(ix) {
      AddFileKeeps(ix, file);
    }
  }

  /**
   * A new database after any number of Adds. What the run theorems say about files and indices holds of it: whether
   * each Add succeeded, and, when it did, that every name and extension of the file is found ever after.
   */
  method AddAll(files: seq<File>) returns (db: SimpleDescriptorDatabase, accepted: seq<bool>)
    ensures fresh(db) && fresh(db.index) && Coherent(db.State()) && db.State() == RunAdds(EMPTY, files)
    ensures db.filesToDelete == files && |accepted| == |files|
    ensures forall i | 0 <= i < |files| :: accepted[i] <==> Accepted(EMPTY, files, i)
    ensures forall i, name | 0 <= i < |files| && accepted[i] && TopLevel(files[i], name) ::
      var p := files[i].package;
      db.FindFileContainingSymbol(if p.Some? && p.value != "" then p.value + "." + name else name) == Some(files[i])
    ensures forall i, extendee, number | 0 <= i < |files| && accepted[i] && ExtendsType(files[i], extendee, number) ::
      db.FindFileContainingExtension(extendee, number) == Some(files[i])
    ensures forall i | 0 <= i < |files| && accepted[i] :: db.FindFileByName(files[i].name) == Some(files[i])
  {
    hide Coherent, DescriptorIndexes.AddFile, TopLevel, ExtendsType, Accepted;
    db := new SimpleDescriptorDatabase();
    accepted := [];
    for i := 0 to |files|
      invariant fresh(db) && fresh(db.index) && db.filesToDelete == files[..i] && |accepted| == i
      invariant db.State() == RunAdds(EMPTY, files[..i])
      invariant forall k | 0 <= k < i :: accepted[k] <==> Accepted(EMPTY, files, k)
    {
      AcceptedWhenAdded(EMPTY, files, i);
      OneMoreAdd(EMPTY, files, i);
      var ok := db.Add(files[i]);
      accepted := accepted + [ok];
    }
    assert files[..|files|] == files;
    RunsAreCoherent(files);
    forall i, name | 0 <= i < |files| && accepted[i] && TopLevel(files[i], name)
      ensures var p := files[i].package;
        db.FindFileContainingSymbol(if p.Some? && p.value != "" then p.value + "." + name else name) == Some(files[i])
    {
      AddedNamesAreFound(files, i, name, "");
    }
    forall i, extendee, number | 0 <= i < |files| && accepted[i] && ExtendsType(files[i], extendee, number)
      ensures db.FindFileContainingExtension(extendee, number) == Some(files[i])
    {
      AddedExtensionsAreFound(files, i, extendee, number);
    }
    forall i | 0 <= i < |files| && accepted[i]
      ensures db.FindFileByName(files[i].name) == Some(files[i])
    {
      AddedFileIsFound(files, i);
    }
  }

  lemma OneMoreAdd(ix: Index, files: seq<File>, i: nat)
    requires i < |files|
    ensures RunAdds(ix, files[..i + 1]) == DescriptorIndexes.AddFile(RunAdds(ix, files[..i]), files[i]).0
  {
    hide DescriptorIndexes.AddFile;
    assert files[..i + 1] == files[..i] + [files[i]];
    RunAddsConcat(ix, files[..i], [files[i]]);
    assert [files[i]][1..] == [];
  }
}
