/** What DescriptorIndex holds, what AddFile does to it, and what every run of AddFile leaves behind. */
module DescriptorIndexes {
  import opened Prelude
  import opened Symbols
  import opened OrderedMaps
  import opened SymbolIndex

  datatype Field = Field(name: string, extendee: string, number: int32)
  datatype Message = Message(name: string, nested: seq<Message>, extensions: seq<Field>)
  datatype File = File(name: string, package: Option<string>, messages: seq<Message>, enums: seq<string>,
                       extensions: seq<Field>, services: seq<string>)

  datatype ExtensionKey = ExtensionKey(extendee: string, number: int32)
  type ExtensionMap = Entries<ExtensionKey, File>

  datatype Index = Index(names: Entries<string, File>, symbols: SymbolMap<File>, extensions: ExtensionMap)

  const EMPTY := Index([], [], [])

  /** The order of std::pair<std::string, int>. */
  predicate KeyLess(a: ExtensionKey, b: ExtensionKey)
  {
    Less(a.extendee, b.extendee) || (a.extendee == b.extendee && a.number < b.number)
  }

  lemma KeyLessIsTotalOrder()
    ensures TotalOrder(KeyLess)
  {
    hide Less;
    forall a, b
      ensures KeyLess(a, b) || a == b || KeyLess(b, a)
      ensures KeyLess(a, b) ==> !KeyLess(b, a)
    {
      LessIsTotal(a.extendee, b.extendee);
    }
    forall a, b, c | KeyLess(a, b) && KeyLess(b, c)
      ensures KeyLess(a, c)
    {
      if Less(a.extendee, b.extendee) && Less(b.extendee, c.extendee) {
        LessIsTransitive(a.extendee, b.extendee, c.extendee);
      }
    }
  }

  /** Only a fully-qualified extendee can be a key. */
  predicate Qualified(field: Field)
  {
    field.extendee != "" && field.extendee[0] == '.'
  }

  function KeyOf(field: Field): ExtensionKey
    requires Qualified(field)
  {
    ExtensionKey(field.extendee[1..], field.number)
  }

  /** One entry that adding a file tries to make. */
  datatype Step = Symbol(name: string) | Extension(field: Field)

  function Path(file: File): string
  {
    if file.package == None || file.package.value == "" then "" else file.package.value + "."
  }

  function ExtensionSteps(fields: seq<Field>): seq<Step>
  {
    if fields == [] then [] else [Extension(fields[0])] + ExtensionSteps(fields[1..])
  }

  /** The extensions inside a message: those of its nested messages first. */
  function NestedSteps(m: Message): seq<Step>
    decreases m, 0
  {
    AllNestedSteps(m.nested) + ExtensionSteps(m.extensions)
  }

  function AllNestedSteps(ms: seq<Message>): seq<Step>
    decreases ms, 1
  {
    if ms == [] then [] else NestedSteps(ms[0]) + AllNestedSteps(ms[1..])
  }

  function MessageSteps(path: string, ms: seq<Message>): seq<Step>
  {
    if ms == [] then [] else [Symbol(path + ms[0].name)] + NestedSteps(ms[0]) + MessageSteps(path, ms[1..])
  }

  function SymbolSteps(path: string, names: seq<string>): seq<Step>
  {
    if names == [] then [] else [Symbol(path + names[0])] + SymbolSteps(path, names[1..])
  }

  function FieldSteps(path: string, fields: seq<Field>): seq<Step>
  {
    if fields == [] then []
    else [Symbol(path + fields[0].name), Extension(fields[0])] + FieldSteps(path, fields[1..])
  }

  /** Everything AddFile adds, in its order. */
  function Steps(file: File): seq<Step>
  {
    var path := Path(file);
    MessageSteps(path, file.messages)
    + (SymbolSteps(path, file.enums) + (FieldSteps(path, file.extensions) + SymbolSteps(path, file.services)))
  }

  /** The message, or one nested in it at any depth, extends something by this field. */
  ghost predicate Extends(m: Message, field: Field)
  {
    field in m.extensions || exists i :: 0 <= i < |m.nested| && Extends(m.nested[i], field)
  }

  /** The symbols of a file are its top-level names in its package; its extensions are those at any depth. */
  ghost predicate Declares(file: File, step: Step)
  {
    match step
    case Symbol(name) =>
      || (exists i :: 0 <= i < |file.messages| && name == Path(file) + file.messages[i].name)
      || (exists i :: 0 <= i < |file.enums| && name == Path(file) + file.enums[i])
      || (exists i :: 0 <= i < |file.extensions| && name == Path(file) + file.extensions[i].name)
      || (exists i :: 0 <= i < |file.services| && name == Path(file) + file.services[i])
    case Extension(field) =>
      field in file.extensions || exists i :: 0 <= i < |file.messages| && Extends(file.messages[i], field)
  }

  lemma {:induction false} ExtensionStepsAre(fields: seq<Field>, step: Step)
    ensures step in ExtensionSteps(fields) <==> step.Extension? && step.field in fields
  {
    if fields == [] {
    } else {
      ExtensionStepsAre(fields[1..], step);
      assert fields == [fields[0]] + fields[1..];
    }
  }

  lemma {:induction false} NestedStepsAre(m: Message, step: Step)
    ensures step in NestedSteps(m) <==> step.Extension? && Extends(m, step.field)
    decreases m, 0
  {
    AllNestedStepsAre(m.nested, step);
    ExtensionStepsAre(m.extensions, step);
  }

  lemma {:induction false} AllNestedStepsAre(ms: seq<Message>, step: Step)
    ensures step in AllNestedSteps(ms) <==> step.Extension? && exists i :: 0 <= i < |ms| && Extends(ms[i], step.field)
    decreases ms, 1
  {
    if ms == [] {
    } else {
      NestedStepsAre(ms[0], step);
      AllNestedStepsAre(ms[1..], step);
      assert forall i | 1 <= i < |ms| :: ms[i] == ms[1..][i - 1];
    }
  }

  lemma {:induction false} MessageStepsAre(path: string, ms: seq<Message>, step: Step)
    ensures step in MessageSteps(path, ms) <==>
      match step
      case Symbol(name) => exists i :: 0 <= i < |ms| && name == path + ms[i].name
      case Extension(field) => exists i :: 0 <= i < |ms| && Extends(ms[i], field)
  {
    if ms == [] {
    } else {
      NestedStepsAre(ms[0], step);
      MessageStepsAre(path, ms[1..], step);
      assert forall i | 1 <= i < |ms| :: ms[i] == ms[1..][i - 1];
    }
  }

  lemma {:induction false} SymbolStepsAre(path: string, names: seq<string>, step: Step)
    ensures step in SymbolSteps(path, names) <==>
      step.Symbol? && exists i :: 0 <= i < |names| && step.name == path + names[i]
  {
    if names == [] {
    } else {
      SymbolStepsAre(path, names[1..], step);
      assert forall i | 1 <= i < |names| :: names[i] == names[1..][i - 1];
    }
  }

  lemma {:induction false} FieldStepsAre(path: string, fields: seq<Field>, step: Step)
    ensures step in FieldSteps(path, fields) <==>
      match step
      case Symbol(name) => exists i :: 0 <= i < |fields| && name == path + fields[i].name
      case Extension(field) => field in fields
  {
    if fields == [] {
    } else {
      FieldStepsAre(path, fields[1..], step);
      assert forall i | 1 <= i < |fields| :: fields[i] == fields[1..][i - 1];
      assert fields == [fields[0]] + fields[1..];
    }
  }

  /** AddFile adds what the file declares, and nothing else. */
  lemma StepsAreDeclared(file: File, step: Step)
    ensures step in Steps(file) <==> Declares(file, step)
  {
    var path := Path(file);
    MessageStepsAre(path, file.messages, step);
    SymbolStepsAre(path, file.enums, step);
    FieldStepsAre(path, file.extensions, step);
    SymbolStepsAre(path, file.services, step);
  }

  function ApplyStep(ix: Index, step: Step, file: File): Option<Index>
  {
    match step
    case Symbol(name) =>
      (match AddSymbol(ix.symbols, name, file)
       case None => None
       case Some(m) => Some(ix.(symbols := m)))
    case Extension(field) =>
      if !Qualified(field) then Some(ix)
      else
        match InsertIfNotPresent(KeyLess, ix.extensions, KeyOf(field), file)
        case None => None
        case Some(m) => Some(ix.(extensions := m))
  }

  /** The steps up to the first that fails; what was added before it stays. */
  function RunSteps(ix: Index, steps: seq<Step>, file: File): (Index, bool)
    decreases |steps|
  {
    if steps == [] then (ix, true)
    else
      match ApplyStep(ix, steps[0], file)
      case None => (ix, false)
      case Some(next) => RunSteps(next, steps[1..], file)
  }

  lemma {:induction false} RunStepsConcat(ix: Index, a: seq<Step>, b: seq<Step>, file: File)
    ensures RunSteps(ix, a + b, file)
         == var r := RunSteps(ix, a, file); if r.1 then RunSteps(r.0, b, file) else r
    decreases |a|
  {
    if a == [] {
      assert a + b == b;
    } else {
      assert (a + b)[1..] == a[1..] + b;
      var next := ApplyStep(ix, a[0], file);
      if next.Some? {
        RunStepsConcat(next.value, a[1..], b, file);
      }
    }
  }

  function AddFile(ix: Index, file: File): (Index, bool)
  {
    match InsertIfNotPresent(Less, ix.names, file.name, file)
    case None => (ix, false)
    case Some(names) => RunSteps(ix.(names := names), Steps(file), file)
  }

  /** Any number of Adds; the ones that fail count too. */
  function RunAdds(ix: Index, files: seq<File>): Index
    decreases |files|
  {
    if files == [] then ix else RunAdds(AddFile(ix, files[0]).0, files[1..])
  }

  /** The Add of `files[i]` in that run succeeds. */
  predicate Accepted(ix: Index, files: seq<File>, i: nat)
    requires i < |files|
    decreases i
  {
    var r := AddFile(ix, files[0]);
    if i == 0 then r.1 else Accepted(r.0, files[1..], i - 1)
  }

  /** Every file a key leads to is the file stored under its own name. */
  ghost predicate Coherent(ix: Index)
  {
    && Sorted(Less, ix.names) && WellFormed(ix.symbols) && Sorted(KeyLess, ix.extensions)
    && (forall e | e in ix.names :: e.0 == e.1.name)
    && (forall e | e in ix.symbols :: (e.1.name, e.1) in ix.names)
    && (forall e | e in ix.extensions :: (e.1.name, e.1) in ix.names)
  }

  /** No binding of `a` is lost or overwritten in `b`. */
  ghost predicate KeepsAll(a: Index, b: Index)
  {
    && (forall e | e in a.names :: e in b.names)
    && (forall e | e in a.symbols :: e in b.symbols)
    && (forall e | e in a.extensions :: e in b.extensions)
  }

  /** The entry a step makes is there. */
  ghost predicate Recorded(ix: Index, step: Step, file: File)
  {
    match step
    case Symbol(name) => (name, file) in ix.symbols
    case Extension(field) => Qualified(field) ==> (KeyOf(field), file) in ix.extensions
  }

  lemma StepKeeps(ix: Index, step: Step, file: File)
    requires Coherent(ix) && (file.name, file) in ix.names && ApplyStep(ix, step, file).Some?
    ensures var r := ApplyStep(ix, step, file).value;
      Coherent(r) && KeepsAll(ix, r) && r.names == ix.names && Recorded(r, step, file)
  {
    hide TotalOrder, AddSymbol, Insert, WellFormed, KeyLess, Less;
    match step {
      case Symbol(name) => AddSymbolAddsOne(ix.symbols, name, file);
      case Extension(field) =>
        if Qualified(field) {
          KeyLessIsTotalOrder();
          InsertAdds(KeyLess, ix.extensions, KeyOf(field), file);
          var m := Insert(KeyLess, ix.extensions, KeyOf(field), file);
          assert ApplyStep(ix, step, file) == Some(ix.(extensions := m));
          forall e | e in m
            ensures (e.1.name, e.1) in ix.names
          {
            assert e == (KeyOf(field), file) || e in ix.extensions;
            assert e in ix.extensions ==> (e.1.name, e.1) in ix.names;
          }
        }
    }
  }

  lemma {:induction false} RunStepsKeeps(ix: Index, steps: seq<Step>, file: File)
    requires Coherent(ix) && (file.name, file) in ix.names
    ensures var r := RunSteps(ix, steps, file);
      Coherent(r.0) && KeepsAll(ix, r.0) && (r.1 ==> forall s | s in steps :: Recorded(r.0, s, file))
    decreases |steps|
  {
    hide Coherent, ApplyStep;
    if steps == [] {
    } else {
      var next := ApplyStep(ix, steps[0], file);
      if next.Some? {
        StepKeeps(ix, steps[0], file);
        RunStepsKeeps(next.value, steps[1..], file);
        assert forall s | s in steps :: s == steps[0] || s in steps[1..];
      }
    }
  }

  lemma AddFileKeeps(ix: Index, file: File)
    requires Coherent(ix)
    ensures var r := AddFile(ix, file);
      Coherent(r.0) && KeepsAll(ix, r.0) && (r.1 ==> forall s | s in Steps(file) :: Recorded(r.0, s, file))
  {
    hide TotalOrder, Insert, WellFormed, KeyLess, Less, Steps, RunSteps;
    var names := InsertIfNotPresent(Less, ix.names, file.name, file);
    if names.Some? {
      LessIsTotalOrder();
      InsertAdds(Less, ix.names, file.name, file);
      assert (file.name, file) in names.value;
      RunStepsKeeps(ix.(names := names.value), Steps(file), file);
    }
  }

  lemma {:induction false} RunAddsKeeps(ix: Index, files: seq<File>)
    requires Coherent(ix)
    ensures Coherent(RunAdds(ix, files)) && KeepsAll(ix, RunAdds(ix, files))
    decreases |files|
  {
    hide Coherent, AddFile;
    if files == [] {
    } else {
      AddFileKeeps(ix, files[0]);
      RunAddsKeeps(AddFile(ix, files[0]).0, files[1..]);
    }
  }

  /** The same from the empty index. */
  lemma RunsAreCoherent(files: seq<File>)
    ensures Coherent(RunAdds(EMPTY, files))
  {
    RunAddsKeeps(EMPTY, files);
  }

  lemma {:induction false} RunAddsRecords(ix: Index, files: seq<File>, i: nat)
    requires Coherent(ix) && i < |files| && Accepted(ix, files, i)
    ensures forall s | s in Steps(files[i]) :: Recorded(RunAdds(ix, files), s, files[i])
    decreases |files|
  {
    hide Coherent, AddFile, Steps;
    AddFileKeeps(ix, files[0]);
    var next := AddFile(ix, files[0]).0;
    if i == 0 {
      RunAddsKeeps(next, files[1..]);
    } else {
      RunAddsRecords(next, files[1..], i - 1);
    }
  }

  lemma RunRecords(files: seq<File>, i: nat)
    requires i < |files| && Accepted(EMPTY, files, i)
    ensures forall s | s in Steps(files[i]) :: Recorded(RunAdds(EMPTY, files), s, files[i])
  {
    RunAddsRecords(EMPTY, files, i);
  }

  /** After any run of Adds, failed ones included, whatever a lookup returns is the file stored under its name. */
  lemma LookupsAreCoherent(files: seq<File>, name: string, key: ExtensionKey)
    ensures var ix := RunAdds(EMPTY, files);
      && (FindSymbol(ix.symbols, name).Some? ==>
            var f := FindSymbol(ix.symbols, name).value; Lookup(ix.names, f.name) == Some(f))
      && (Lookup(ix.extensions, key).Some? ==>
            var f := Lookup(ix.extensions, key).value; Lookup(ix.names, f.name) == Some(f))
  {
    RunsAreCoherent(files);
    CoherentLookups(RunAdds(EMPTY, files), name, key);
  }

  lemma CoherentLookups(ix: Index, name: string, key: ExtensionKey)
    requires Coherent(ix)
    ensures FindSymbol(ix.symbols, name).Some? ==>
      var f := FindSymbol(ix.symbols, name).value; Lookup(ix.names, f.name) == Some(f)
    ensures Lookup(ix.extensions, key).Some? ==>
      var f := Lookup(ix.extensions, key).value; Lookup(ix.names, f.name) == Some(f)
  {
    hide TotalOrder, Less, KeyLess, IsSubSymbol;
    LessIsTotalOrder();
    var found := FindSymbol(ix.symbols, name);
    if found.Some? {
      assert ix.symbols[FindLastLessOrEqual(ix.symbols, name)] in ix.symbols;
      LookupFinds(Less, ix.names, found.value.name, found.value);
    }
    var ext := Lookup(ix.extensions, key);
    if ext.Some? {
      LookupFinds(Less, ix.names, ext.value.name, ext.value);
    }
  }

  /** What a run has bound stays bound to the same file, whatever is added later. */
  lemma BindingsStay(earlier: seq<File>, later: seq<File>, name: string)
    ensures var a, b := RunAdds(EMPTY, earlier), RunAdds(EMPTY, earlier + later);
      KeepsAll(a, b) && (Lookup(a.names, name).Some? ==> Lookup(b.names, name) == Lookup(a.names, name))
  {
    hide TotalOrder, Less, AddFile;
    RunAddsConcat(EMPTY, earlier, later);
    RunsAreCoherent(earlier);
    var a := RunAdds(EMPTY, earlier);
    RunAddsKeeps(a, later);
    if Lookup(a.names, name).Some? {
      LessIsTotalOrder();
      LookupFinds(Less, RunAdds(a, later).names, name, Lookup(a.names, name).value);
    }
  }

  lemma {:induction false} RunAddsConcat(ix: Index, a: seq<File>, b: seq<File>)
    ensures RunAdds(ix, a + b) == RunAdds(RunAdds(ix, a), b)
    decreases |a|
  {
    if a == [] {
      assert a + b == b;
    } else {
      assert (a + b)[1..] == a[1..] + b;
      RunAddsConcat(AddFile(ix, a[0]).0, a[1..], b);
    }
  }

  /**
   * Every symbol and fully-qualified extension of a file whose Add succeeded resolves to it ever after, and
   * while the symbols stay prefix-free so does every name below such a symbol.
   */
  lemma AddedFilesResolve(files: seq<File>, i: nat, step: Step, name: string)
    requires i < |files| && Accepted(EMPTY, files, i) && Declares(files[i], step)
    ensures var ix := RunAdds(EMPTY, files);
      match step
      case Symbol(s) =>
        && FindSymbol(ix.symbols, s) == Some(files[i])
        && (PrefixFree(ix.symbols) && IsSubSymbol(s, name) ==> FindSymbol(ix.symbols, name) == Some(files[i]))
      case Extension(field) => Qualified(field) ==> Lookup(ix.extensions, KeyOf(field)) == Some(files[i])
  {
    hide TotalOrder, Less, KeyLess, IsSubSymbol, Accepted, Steps, ValidKeys, PrefixFree, Declares;
    StepsAreDeclared(files[i], step);
    RunsAreCoherent(files);
    RunRecords(files, i);
    var ix := RunAdds(EMPTY, files);
    assert Recorded(ix, step, files[i]);
    match step {
      case Symbol(s) =>
        KeyIsFound(ix.symbols, s, files[i]);
        if PrefixFree(ix.symbols) && IsSubSymbol(s, name) {
          var k :| 0 <= k < |ix.symbols| && ix.symbols[k] == (s, files[i]);
          MatchIsFound(ix.symbols, name, k);
        }
      case Extension(field) =>
        if Qualified(field) {
          KeyLessIsTotalOrder();
          LookupFinds(KeyLess, ix.extensions, KeyOf(field), files[i]);
        }
    }
  }

  /** Some step of the run is accepted over a descendant it does not see. */
  predicate StepsSkip(ix: Index, steps: seq<Step>, file: File)
    decreases |steps|
  {
    steps != [] &&
    ((steps[0].Symbol? && SkipsDescendant(ix.symbols, steps[0].name)) ||
     match ApplyStep(ix, steps[0], file)
     case None => false
     case Some(next) => StepsSkip(next, steps[1..], file))
  }

  predicate AddSkips(ix: Index, file: File)
  {
    match InsertIfNotPresent(Less, ix.names, file.name, file)
    case None => false
    case Some(names) => StepsSkip(ix.(names := names), Steps(file), file)
  }

  predicate RunSkips(ix: Index, files: seq<File>)
    decreases |files|
  {
    files != [] && (AddSkips(ix, files[0]) || RunSkips(AddFile(ix, files[0]).0, files[1..]))
  }

  lemma SkippedIsAdded(ix: Index, name: string, file: File)
    requires WellFormed(ix.symbols) && SkipsDescendant(ix.symbols, name)
    ensures ApplyStep(ix, Symbol(name), file).Some?
  {
    SkipMeansFirstIsAfter(ix.symbols, name);
  }

  lemma {:induction false} StepsPrefixFree(ix: Index, steps: seq<Step>, file: File)
    requires Coherent(ix) && (file.name, file) in ix.names
    ensures PrefixFree(RunSteps(ix, steps, file).0.symbols) <==> PrefixFree(ix.symbols) && !StepsSkip(ix, steps, file)
    decreases |steps|
  {
    hide PrefixFree, SkipsDescendant, AddSymbol, WellFormed, InsertIfNotPresent;
    if steps == [] {
    } else {
      if steps[0].Symbol? && SkipsDescendant(ix.symbols, steps[0].name) {
        SkippedIsAdded(ix, steps[0].name, file);
      }
      var next := ApplyStep(ix, steps[0], file);
      if next.Some? {
        StepKeeps(ix, steps[0], file);
        StepsPrefixFree(next.value, steps[1..], file);
        if steps[0].Symbol? {
          AddSymbolPrefixFree(ix.symbols, steps[0].name, file);
        }
      }
    }
  }

  lemma AddPrefixFree(ix: Index, file: File)
    requires Coherent(ix)
    ensures PrefixFree(AddFile(ix, file).0.symbols) <==> PrefixFree(ix.symbols) && !AddSkips(ix, file)
  {
    hide TotalOrder, Insert, WellFormed, KeyLess, Less, Steps, RunSteps, StepsSkip, PrefixFree;
    var names := InsertIfNotPresent(Less, ix.names, file.name, file);
    if names.Some? {
      LessIsTotalOrder();
      InsertAdds(Less, ix.names, file.name, file);
      assert (file.name, file) in names.value;
      StepsPrefixFree(ix.(names := names.value), Steps(file), file);
    }
  }

  lemma {:induction false} RunPrefixFreeFrom(ix: Index, files: seq<File>)
    requires Coherent(ix)
    ensures PrefixFree(RunAdds(ix, files).symbols) <==> PrefixFree(ix.symbols) && !RunSkips(ix, files)
    decreases |files|
  {
    hide Coherent, AddFile, AddSkips, PrefixFree;
    if files == [] {
    } else {
      AddFileKeeps(ix, files[0]);
      AddPrefixFree(ix, files[0]);
      RunPrefixFreeFrom(AddFile(ix, files[0]).0, files[1..]);
    }
  }

  /** The map invariant survives a run of Adds if and only if no step of it stepped over a descendant. */
  lemma RunPrefixFree(files: seq<File>)
    ensures PrefixFree(RunAdds(EMPTY, files).symbols) <==> !RunSkips(EMPTY, files)
  {
    RunPrefixFreeFrom(EMPTY, files);
  }

  /** The numbers at the front of `m` whose type is the given one. */
  function LeadingNumbers(m: ExtensionMap, extendee: string): seq<int32>
  {
    if m == [] || m[0].0.extendee != extendee then [] else [m[0].0.number] + LeadingNumbers(m[1..], extendee)
  }

  function ExtensionNumbers(m: ExtensionMap, extendee: string): seq<int32>
  {
    LeadingNumbers(m[LowerBound(KeyLess, m, ExtensionKey(extendee, 0))..], extendee)
  }

  ghost predicate Ascending(s: seq<int32>)
  {
    forall i, j | 0 <= i < j < |s| :: s[i] < s[j]
  }

  lemma {:induction false} LeadingNumbersAreAll(m: ExtensionMap, extendee: string, n: int32)
    requires Sorted(KeyLess, m) && forall i | 0 <= i < |m| :: !KeyLess(m[i].0, ExtensionKey(extendee, 0))
    ensures var r := LeadingNumbers(m, extendee);
      && Ascending(r)
      && (n in r <==> n >= 0 && exists i :: 0 <= i < |m| && m[i].0 == ExtensionKey(extendee, n))
  {
    if m == [] {
    } else {
      hide Less;
      LessIsTotal(m[0].0.extendee, extendee);
      if m[0].0.extendee == extendee {
        var tail := LeadingNumbers(m[1..], extendee);
        assert forall i | 1 <= i < |m| :: m[i] == m[1..][i - 1];
        LeadingNumbersAreAll(m[1..], extendee, n);
        forall k | 0 <= k < |tail|
          ensures m[0].0.number < tail[k]
        {
          LeadingNumbersAreAll(m[1..], extendee, tail[k]);
          assert tail[k] in tail;
          var i :| 0 <= i < |m[1..]| && m[1..][i].0 == ExtensionKey(extendee, tail[k]);
          assert KeyLess(m[0].0, m[i + 1].0);
          LessIsTotal(extendee, extendee);
        }
        assert KeyLess(m[0].0, ExtensionKey(extendee, 0)) || m[0].0.number >= 0;
      } else {
        forall i | 0 <= i < |m|
          ensures m[i].0.extendee != extendee
        {
          if i > 0 {
            assert KeyLess(m[0].0, m[i].0);
            LessIsTotal(m[0].0.extendee, m[i].0.extendee);
          }
        }
      }
    }
  }

  /** FindAllExtensionNumbers: exactly the non-negative numbers registered for the type, in ascending order. */
  lemma ExtensionNumbersAreAll(m: ExtensionMap, extendee: string, n: int32)
    requires Sorted(KeyLess, m)
    ensures Ascending(ExtensionNumbers(m, extendee))
    ensures n in ExtensionNumbers(m, extendee) <==>
      n >= 0 && exists i :: 0 <= i < |m| && m[i].0 == ExtensionKey(extendee, n)
  {
    hide Less, TotalOrder, LowerBound, LeadingNumbers, Ascending;
    KeyLessIsTotalOrder();
    LowerBoundSplits(KeyLess, m, ExtensionKey(extendee, 0));
    var u := LowerBound(KeyLess, m, ExtensionKey(extendee, 0));
    assert forall i | u <= i < |m| :: m[u..][i - u] == m[i];
    LeadingNumbersAreAll(m[u..], extendee, n);
    if n >= 0 && exists i :: 0 <= i < |m| && m[i].0 == ExtensionKey(extendee, n) {
      var i :| 0 <= i < |m| && m[i].0 == ExtensionKey(extendee, n);
      LessIsTotal(extendee, extendee);
      assert !KeyLess(ExtensionKey(extendee, n), ExtensionKey(extendee, 0));
      assert u <= i;
      assert m[u..][i - u].0 == ExtensionKey(extendee, n);
    }
  }

  /** MergedDescriptorDatabase::FindFileByName: the first source that has the file. */
  function MergedFile(sources: seq<Index>, name: string): Option<File>
  {
    if sources == [] then None
    else
      var r := Lookup(sources[0].names, name);
      if r.Some? then r else MergedFile(sources[1..], name)
  }

  /** The first source in which the lookup succeeds. */
  function FirstFound(sources: seq<Index>, find: Index -> Option<File>): (r: nat)
    ensures r <= |sources|
    ensures r < |sources| ==> find(sources[r]).Some?
    ensures forall i | 0 <= i < r :: find(sources[i]).None?
  {
    if sources == [] || find(sources[0]).Some? then 0
    else
      assert forall i | 1 <= i < |sources| :: sources[i] == sources[1..][i - 1];
      1 + FirstFound(sources[1..], find)
  }

  /** A merged lookup: what the first source finds, unless an earlier source has a file of that name. */
  function MergedFind(sources: seq<Index>, find: Index -> Option<File>): Option<File>
  {
    var i := FirstFound(sources, find);
    if i == |sources| then None
    else
      var f := find(sources[i]).value;
      if exists j :: 0 <= j < i && Lookup(sources[j].names, f.name).Some? then None else Some(f)
  }

  lemma {:induction false} MergedFileIsFirst(sources: seq<Index>, name: string, i: nat)
    requires i < |sources|
    requires forall j | 0 <= j < i :: Lookup(sources[j].names, name).None?
    requires Lookup(sources[i].names, name).Some?
    ensures MergedFile(sources, name) == Lookup(sources[i].names, name)
  {
    if i == 0 {
    } else {
      assert Lookup(sources[0].names, name).None?;
      assert forall j | 0 <= j < i - 1 :: sources[1..][j] == sources[j + 1];
      MergedFileIsFirst(sources[1..], name, i - 1);
    }
  }

  function SymbolFinder(name: string): Index -> Option<File>
  {
    (ix: Index) => FindSymbol(ix.symbols, name)
  }

  function ExtensionFinder(key: ExtensionKey): Index -> Option<File>
  {
    (ix: Index) => Lookup(ix.extensions, key)
  }

  /** Merged coherence: a file that a merged lookup returns is the one the merged database has under its name. */
  lemma MergedIsCoherent(runs: seq<seq<File>>, name: string, key: ExtensionKey, f: File)
    ensures var sources := seq(|runs|, i requires 0 <= i < |runs| => RunAdds(EMPTY, runs[i]));
      (MergedFind(sources, SymbolFinder(name)) == Some(f) || MergedFind(sources, ExtensionFinder(key)) == Some(f))
      ==> MergedFile(sources, f.name) == Some(f)
  {
    hide RunAdds, FindSymbol, Lookup;
    var sources := seq(|runs|, i requires 0 <= i < |runs| => RunAdds(EMPTY, runs[i]));
    var s, e := FirstFound(sources, SymbolFinder(name)), FirstFound(sources, ExtensionFinder(key));
    if MergedFind(sources, SymbolFinder(name)) == Some(f) {
      LookupsAreCoherent(runs[s], name, key);
      MergedFileIsFirst(sources, f.name, s);
    }
    if MergedFind(sources, ExtensionFinder(key)) == Some(f) {
      LookupsAreCoherent(runs[e], name, key);
      MergedFileIsFirst(sources, f.name, e);
    }
  }
}
