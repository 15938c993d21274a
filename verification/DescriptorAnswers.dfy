/** What the databases answer, said with the names in the files and the entries of the maps. */
module DescriptorAnswers {
  import opened Prelude
  import opened Symbols
  import opened OrderedMaps
  import opened SymbolIndex
  import opened DescriptorIndexes

  /** `name` stands at the top level of the file: a message, an enum, an extension or a service. */
  ghost predicate TopLevel(file: File, name: string)
  {
    || (exists k :: 0 <= k < |file.messages| && file.messages[k].name == name)
    || (exists k :: 0 <= k < |file.enums| && file.enums[k] == name)
    || (exists k :: 0 <= k < |file.extensions| && file.extensions[k].name == name)
    || (exists k :: 0 <= k < |file.services| && file.services[k] == name)
  }

  /** The name with its package in front. */
  ghost predicate IsFullName(file: File, name: string, full: string)
  {
    if file.package.Some? && file.package.value != "" then full == file.package.value + "." + name else full == name
  }

  lemma FullNameIsDeclared(file: File, name: string, full: string)
    requires TopLevel(file, name) && IsFullName(file, name, full)
    ensures Declares(file, Symbol(full))
  {
  }

  lemma DeclaredIsFullName(file: File, full: string)
    requires Declares(file, Symbol(full))
    ensures exists name :: TopLevel(file, name) && IsFullName(file, name, full)
  {
    if k :| 0 <= k < |file.messages| && full == Path(file) + file.messages[k].name {
      assert TopLevel(file, file.messages[k].name) && IsFullName(file, file.messages[k].name, full);
    } else if k :| 0 <= k < |file.enums| && full == Path(file) + file.enums[k] {
      assert TopLevel(file, file.enums[k]) && IsFullName(file, file.enums[k], full);
    } else if k :| 0 <= k < |file.extensions| && full == Path(file) + file.extensions[k].name {
      assert TopLevel(file, file.extensions[k].name) && IsFullName(file, file.extensions[k].name, full);
    } else {
      var k :| 0 <= k < |file.services| && full == Path(file) + file.services[k];
      assert TopLevel(file, file.services[k]) && IsFullName(file, file.services[k], full);
    }
  }

  /**
   * Every message, enum, extension and service at the top level of a file whose Add succeeded is found under its name
   * with the package in front, ever after; and so is every name below it, while the map is prefix-free.
   */
  lemma AddedNamesAreFound(files: seq<File>, i: nat, name: string, below: string)
    requires i < |files| && Accepted(EMPTY, files, i) && TopLevel(files[i], name)
    ensures var f, m := files[i], RunAdds(EMPTY, files).symbols;
      if f.package.Some? && f.package.value != "" then
        && FindSymbol(m, f.package.value + "." + name) == Some(f)
        && (PrefixFree(m) ==> FindSymbol(m, f.package.value + "." + name + "." + below) == Some(f))
      else
        && FindSymbol(m, name) == Some(f)
        && (PrefixFree(m) ==> FindSymbol(m, name + "." + below) == Some(f))
  {
    hide RunAdds, Accepted, FindSymbol, PrefixFree, Declares;
    var f := files[i];
    var full := if f.package.Some? && f.package.value != "" then f.package.value + "." + name else name;
    FullNameIsDeclared(f, name, full);
    assert IsSubSymbol(full, full + "." + below);
    AddedFilesResolve(files, i, Symbol(full), full + "." + below);
  }

  /** The message at the end of a path of indices into nested messages. */
  function Reach(m: Message, path: seq<nat>): Option<Message>
    decreases |path|
  {
    if path == [] then Some(m)
    else if path[0] < |m.nested| then Reach(m.nested[path[0]], path[1..])
    else None
  }

  /** The file extends a type by a field of that number, itself or in a message at any depth. */
  ghost predicate ExtendsType(file: File, extendee: string, number: int32)
  {
    || (exists x :: x in file.extensions && x.extendee == "." + extendee && x.number == number)
    || (exists k, path, x :: 0 <= k < |file.messages| && Holds(file.messages[k], path, x)
                             && x.extendee == "." + extendee && x.number == number)
  }

  predicate Holds(m: Message, path: seq<nat>, x: Field)
  {
    Reach(m, path).Some? && x in Reach(m, path).value.extensions
  }

  lemma {:induction false} HeldIsExtended(m: Message, path: seq<nat>, x: Field)
    requires Holds(m, path, x)
    ensures Extends(m, x)
    decreases |path|
  {
    if path == [] {
    } else {
      HeldIsExtended(m.nested[path[0]], path[1..], x);
    }
  }

  lemma {:induction false} ExtendedIsHeld(m: Message, x: Field) returns (path: seq<nat>)
    requires Extends(m, x)
    ensures Holds(m, path, x)
  {
    if x in m.extensions {
      path := [];
    } else {
      var k :| 0 <= k < |m.nested| && Extends(m.nested[k], x);
      var rest := ExtendedIsHeld(m.nested[k], x);
      path := [k] + rest;
      assert path[1..] == rest;
    }
  }

  /** Every fully-qualified extension of such a file is found under the type and the number it has. */
  lemma AddedExtensionsAreFound(files: seq<File>, i: nat, extendee: string, number: int32)
    requires i < |files| && Accepted(EMPTY, files, i) && ExtendsType(files[i], extendee, number)
    ensures Lookup(RunAdds(EMPTY, files).extensions, ExtensionKey(extendee, number)) == Some(files[i])
  {
    hide RunAdds, Accepted, FindSymbol, PrefixFree, Lookup, Holds;
    var f := files[i];
    var x: Field;
    if y :| y in f.extensions && y.extendee == "." + extendee && y.number == number {
      x := y;
    } else {
      var k, path, y :| 0 <= k < |f.messages| && Holds(f.messages[k], path, y)
                        && y.extendee == "." + extendee && y.number == number;
      HeldIsExtended(f.messages[k], path, y);
      x := y;
    }
    assert Qualified(x) && KeyOf(x) == ExtensionKey(extendee, number);
    AddedFilesResolve(files, i, Extension(x), "");
  }

  /** Every entry of the index says something that its file says. */
  ghost predicate Sound(ix: Index, files: seq<File>)
  {
    && (forall e | e in ix.names :: e.1 in files && e.0 == e.1.name)
    && (forall e | e in ix.symbols :: e.1 in files && Declares(e.1, Symbol(e.0)))
    && (forall e | e in ix.extensions :: e.1 in files && HasKey(e.1, e.0))
  }

  ghost predicate HasKey(file: File, key: ExtensionKey)
  {
    exists x :: Declares(file, Extension(x)) && Qualified(x) && KeyOf(x) == key
  }

  lemma StepIsSound(ix: Index, step: Step, file: File, files: seq<File>)
    requires Coherent(ix) && Sound(ix, files) && file in files && Declares(file, step)
    requires ApplyStep(ix, step, file).Some?
    ensures Sound(ApplyStep(ix, step, file).value, files)
  {
    hide TotalOrder, AddSymbol, Insert, WellFormed, KeyLess, Less, Declares;
    match step {
      case Symbol(name) => AddSymbolAddsOne(ix.symbols, name, file);
      case Extension(field) =>
        if Qualified(field) {
          KeyLessIsTotalOrder();
          InsertAdds(KeyLess, ix.extensions, KeyOf(field), file);
          var m := Insert(KeyLess, ix.extensions, KeyOf(field), file);
          assert ApplyStep(ix, step, file) == Some(ix.(extensions := m));
          forall e | e in m
            ensures e.1 in files && HasKey(e.1, e.0)
          {
            assert e == (KeyOf(field), file) || e in ix.extensions;
          }
        }
    }
  }

  lemma {:induction false} StepsAreSound(ix: Index, steps: seq<Step>, file: File, files: seq<File>)
    requires Coherent(ix) && Sound(ix, files) && file in files && (file.name, file) in ix.names
    requires forall s | s in steps :: Declares(file, s)
    ensures Sound(RunSteps(ix, steps, file).0, files)
    decreases |steps|
  {
    hide Coherent, Sound, ApplyStep, Declares;
    if steps == [] {
    } else {
      var next := ApplyStep(ix, steps[0], file);
      if next.Some? {
        StepKeeps(ix, steps[0], file);
        StepIsSound(ix, steps[0], file, files);
        StepsAreSound(next.value, steps[1..], file, files);
      }
    }
  }

  lemma AddIsSound(ix: Index, file: File, files: seq<File>)
    requires Coherent(ix) && Sound(ix, files) && file in files
    ensures Sound(AddFile(ix, file).0, files)
  {
    hide TotalOrder, Insert, WellFormed, KeyLess, Less, Steps, RunSteps, Declares, HasKey;
    var names := InsertIfNotPresent(Less, ix.names, file.name, file);
    if names.Some? {
      LessIsTotalOrder();
      InsertAdds(Less, ix.names, file.name, file);
      assert (file.name, file) in names.value;
      forall s | s in Steps(file)
        ensures Declares(file, s)
      {
        StepsAreDeclared(file, s);
      }
      StepsAreSound(ix.(names := names.value), Steps(file), file, files);
    }
  }

  lemma {:induction false} RunIsSound(ix: Index, some: seq<File>, files: seq<File>)
    requires Coherent(ix) && Sound(ix, files) && forall f | f in some :: f in files
    ensures Sound(RunAdds(ix, some), files)
    decreases |some|
  {
    hide Coherent, Sound, AddFile;
    if some == [] {
    } else {
      AddFileKeeps(ix, some[0]);
      AddIsSound(ix, some[0], files);
      RunIsSound(AddFile(ix, some[0]).0, some[1..], files);
    }
  }

  /** After any run, an entry for a name leads to a file that has this name, with its package, at its top level. */
  lemma SymbolEntriesAreNames(files: seq<File>, full: string, f: File)
    requires (full, f) in RunAdds(EMPTY, files).symbols
    ensures f in files && exists name :: TopLevel(f, name) && IsFullName(f, name, full)
  {
    hide RunAdds, Declares, TopLevel, IsFullName;
    RunIsSound(EMPTY, files, files);
    DeclaredIsFullName(f, full);
  }

  /** And an entry for a type and a number leads to a file that extends this type by a field of this number. */
  lemma ExtensionEntriesAreExtensions(files: seq<File>, extendee: string, number: int32, f: File)
    requires (ExtensionKey(extendee, number), f) in RunAdds(EMPTY, files).extensions
    ensures f in files && ExtendsType(f, extendee, number)
  {
    hide RunAdds, Holds;
    RunIsSound(EMPTY, files, files);
    var x :| Declares(f, Extension(x)) && Qualified(x) && KeyOf(x) == ExtensionKey(extendee, number);
    assert x.extendee == "." + extendee;
    if x !in f.extensions {
      var k :| 0 <= k < |f.messages| && Extends(f.messages[k], x);
      var path := ExtendedIsHeld(f.messages[k], x);
      assert Holds(f.messages[k], path, x);
    }
  }

  // ----- lookups, by the entries -----

  ghost predicate HasFile(ix: Index, name: string)
  {
    exists e :: e in ix.names && e.0 == name
  }

  ghost predicate HasExtension(ix: Index, extendee: string, number: int32)
  {
    exists e :: e in ix.extensions && e.0 == ExtensionKey(extendee, number)
  }

  /** The key is the name or the name goes on after it with a dot. */
  predicate Covers(key: string, name: string)
  {
    key == name || key + "." <= name
  }

  ghost predicate HasSymbol(ix: Index, name: string)
  {
    exists e :: e in ix.symbols && Covers(e.0, name)
  }

  lemma CoversIsSubSymbol(key: string, name: string)
    ensures Covers(key, name) <==> IsSubSymbol(key, name)
  {
    if key + "." <= name {
      assert name[..|key|] == (key + ".")[..|key|] == key && name[|key|] == (key + ".")[|key|];
    }
  }

  lemma FileIsEntry(ix: Index, name: string, f: File)
    requires Coherent(ix)
    ensures Lookup(ix.names, name) == Some(f) <==> (name, f) in ix.names
    ensures Lookup(ix.names, name).Some? <==> HasFile(ix, name)
  {
    hide Less, TotalOrder;
    LessIsTotalOrder();
    if (name, f) in ix.names {
      LookupFinds(Less, ix.names, name, f);
    }
    if Lookup(ix.names, name).Some? {
      assert (name, Lookup(ix.names, name).value) in ix.names;
    }
  }

  lemma ExtensionIsEntry(ix: Index, extendee: string, number: int32, f: File)
    requires Coherent(ix)
    ensures Lookup(ix.extensions, ExtensionKey(extendee, number)) == Some(f)
       <==> (ExtensionKey(extendee, number), f) in ix.extensions
    ensures Lookup(ix.extensions, ExtensionKey(extendee, number)).Some? <==> HasExtension(ix, extendee, number)
  {
    hide KeyLess, TotalOrder;
    KeyLessIsTotalOrder();
    var key := ExtensionKey(extendee, number);
    if (key, f) in ix.extensions {
      LookupFinds(KeyLess, ix.extensions, key, f);
    }
    if Lookup(ix.extensions, key).Some? {
      assert (key, Lookup(ix.extensions, key).value) in ix.extensions;
    }
  }

  /** A name is found through the entry that covers it, of which there is one at most while the map is prefix-free. */
  lemma SymbolIsEntry(ix: Index, name: string, f: File)
    requires Coherent(ix)
    ensures FindSymbol(ix.symbols, name) == Some(f) ==> Leads(ix.symbols, name, f)
    ensures PrefixFree(ix.symbols) ==>
      (FindSymbol(ix.symbols, name) == Some(f) <==> Leads(ix.symbols, name, f))
    ensures PrefixFree(ix.symbols) ==> (FindSymbol(ix.symbols, name).Some? <==> HasSymbol(ix, name))
  {
    hide FindLastLessOrEqual, Covers, IsSubSymbol, PrefixFree, ValidKeys, Less;
    var m := ix.symbols;
    if FindSymbol(m, name).Some? {
      var i := FindLastLessOrEqual(m, name);
      CoversIsSubSymbol(m[i].0, name);
      assert m[i] in m;
    }
    if PrefixFree(m) {
      forall e | e in m && Covers(e.0, name)
        ensures FindSymbol(m, name) == Some(e.1)
      {
        var i :| 0 <= i < |m| && m[i] == e;
        CoversIsSubSymbol(e.0, name);
        MatchIsFound(m, name, i);
      }
    }
  }

  lemma FileEntries(ix: Index, name: string)
    ensures Coherent(ix) ==> forall f :: Lookup(ix.names, name) == Some(f) <==> (name, f) in ix.names
  {
    hide Coherent;
    if Coherent(ix) {
      forall f
        ensures Lookup(ix.names, name) == Some(f) <==> (name, f) in ix.names
      {
        FileIsEntry(ix, name, f);
      }
    }
  }

  lemma ExtensionEntries(ix: Index, extendee: string, number: int32)
    ensures var key := ExtensionKey(extendee, number);
      Coherent(ix) ==> forall f :: Lookup(ix.extensions, key) == Some(f) <==> (key, f) in ix.extensions
  {
    hide Coherent;
    var key := ExtensionKey(extendee, number);
    if Coherent(ix) {
      forall f
        ensures Lookup(ix.extensions, key) == Some(f) <==> (key, f) in ix.extensions
      {
        ExtensionIsEntry(ix, extendee, number, f);
      }
    }
  }

  /** The file of an entry for the name or for an ancestor of it. */
  ghost predicate Leads(m: SymbolMap<File>, name: string, f: File)
  {
    exists e :: e in m && Covers(e.0, name) && e.1 == f
  }

  lemma SymbolEntries(ix: Index, name: string)
    ensures Coherent(ix) ==> forall f :: FindSymbol(ix.symbols, name) == Some(f) ==> Leads(ix.symbols, name, f)
    ensures Coherent(ix) && PrefixFree(ix.symbols) ==>
      forall f :: FindSymbol(ix.symbols, name) == Some(f) <==> Leads(ix.symbols, name, f)
  {
    hide FindSymbol, Leads, Coherent, PrefixFree;
    if Coherent(ix) {
      forall f
        ensures FindSymbol(ix.symbols, name) == Some(f) ==> Leads(ix.symbols, name, f)
        ensures PrefixFree(ix.symbols) ==> (FindSymbol(ix.symbols, name) == Some(f) <==> Leads(ix.symbols, name, f))
      {
        SymbolIsEntry(ix, name, f);
      }
    }
  }

  /** Whether the Add of a file in a run succeeds is decided when it comes. */
  lemma {:induction false} AcceptedWhenAdded(ix: Index, files: seq<File>, i: nat)
    requires i < |files|
    ensures Accepted(ix, files, i) <==> AddFile(RunAdds(ix, files[..i]), files[i]).1
    decreases i
  {
    hide AddFile;
    if i == 0 {
    } else {
      assert files[..i][1..] == files[1..][..i - 1];
      AcceptedWhenAdded(AddFile(ix, files[0]).0, files[1..], i - 1);
    }
  }

  /** And the file itself is found under its name. */
  lemma AddedFileIsFound(files: seq<File>, i: nat)
    requires i < |files| && Accepted(EMPTY, files, i)
    ensures Lookup(RunAdds(EMPTY, files).names, files[i].name) == Some(files[i])
  {
    hide AddFile, Lookup, Insert, RunSteps, Steps;
    var before := RunAdds(EMPTY, files[..i]);
    AcceptedWhenAdded(EMPTY, files, i);
    RunsAreCoherent(files[..i]);
    AddedNameIsEntry(before, files[i]);
    AddFileKeeps(before, files[i]);
    assert files == files[..i] + files[i..];
    assert files[i..] == [files[i]] + files[i + 1..];
    RunAddsConcat(EMPTY, files[..i], files[i..]);
    RunAddsKeeps(AddFile(before, files[i]).0, files[i + 1..]);
    FileIsEntry(RunAdds(EMPTY, files), files[i].name, files[i]);
  }

  lemma AddedNameIsEntry(ix: Index, file: File)
    requires Coherent(ix) && AddFile(ix, file).1
    ensures (file.name, file) in AddFile(ix, file).0.names
  {
    hide TotalOrder, Insert, WellFormed, KeyLess, Less, Steps, RunSteps;
    var names := InsertIfNotPresent(Less, ix.names, file.name, file);
    LessIsTotalOrder();
    InsertAdds(Less, ix.names, file.name, file);
    assert (file.name, file) in names.value;
    RunStepsKeeps(ix.(names := names.value), Steps(file), file);
  }

  // ----- merged lookups -----

  /** Source i is the first with an entry for the type and number, that entry is f, and no earlier one has f's name. */
  ghost predicate ExtensionAnswer(sources: seq<Index>, i: nat, extendee: string, number: int32, f: File)
  {
    && i < |sources| && (ExtensionKey(extendee, number), f) in sources[i].extensions
    && (forall k | 0 <= k < i :: !HasExtension(sources[k], extendee, number))
    && (forall k | 0 <= k < i :: !HasFile(sources[k], f.name))
  }

  /** The same for the entry that covers a name. */
  ghost predicate SymbolAnswer(sources: seq<Index>, i: nat, name: string, f: File)
  {
    && i < |sources| && Leads(sources[i].symbols, name, f)
    && (forall k | 0 <= k < i :: !HasSymbol(sources[k], name))
    && (forall k | 0 <= k < i :: !HasFile(sources[k], f.name))
  }

  /** Source i is the first with a file of that name, and that file is f. */
  ghost predicate FileAnswer(sources: seq<Index>, i: nat, name: string, f: File)
  {
    && i < |sources| && (name, f) in sources[i].names && forall k | 0 <= k < i :: !HasFile(sources[k], name)
  }

  ghost predicate AllCoherent(sources: seq<Index>)
  {
    forall i | 0 <= i < |sources| :: Coherent(sources[i])
  }

  ghost predicate AllPrefixFree(sources: seq<Index>)
  {
    forall i | 0 <= i < |sources| :: PrefixFree(sources[i].symbols)
  }

  lemma MergedFileIsEntry(sources: seq<Index>, name: string, f: File)
    requires AllCoherent(sources)
    ensures MergedFile(sources, name) == Some(f) <==> exists i :: FileAnswer(sources, i, name, f)
  {
    hide Coherent, HasFile, Lookup;
    FirstFile(sources, name);
    forall i, g | 0 <= i < |sources|
      ensures Lookup(sources[i].names, name) == Some(g) <==> (name, g) in sources[i].names
      ensures Lookup(sources[i].names, name).Some? <==> HasFile(sources[i], name)
    {
      FileIsEntry(sources[i], name, g);
    }
    var r := MergedFile(sources, name);
    if r.Some? {
      var i :| 0 <= i < |sources| && Lookup(sources[i].names, name) == r
               && forall k | 0 <= k < i :: Lookup(sources[k].names, name).None?;
      assert FileAnswer(sources, i, name, r.value);
    }
    if j: nat :| FileAnswer(sources, j, name, f) {
      assert Lookup(sources[j].names, name) == Some(f);
    }
  }

  lemma {:induction false} FirstFile(sources: seq<Index>, name: string)
    ensures var r := MergedFile(sources, name);
      if r.None? then forall k | 0 <= k < |sources| :: Lookup(sources[k].names, name).None?
      else exists i :: 0 <= i < |sources| && Lookup(sources[i].names, name) == r
                       && forall k | 0 <= k < i :: Lookup(sources[k].names, name).None?
  {
    hide Lookup;
    if sources == [] {
    } else {
      assert forall k | 0 < k < |sources| :: sources[k] == sources[1..][k - 1];
      if Lookup(sources[0].names, name).None? {
        FirstFile(sources[1..], name);
        var r := MergedFile(sources[1..], name);
        if r.Some? {
          var i :| 0 <= i < |sources[1..]| && Lookup(sources[1..][i].names, name) == r
                   && forall k | 0 <= k < i :: Lookup(sources[1..][k].names, name).None?;
          assert Lookup(sources[i + 1].names, name) == r;
          assert forall k | 0 <= k < i + 1 :: Lookup(sources[k].names, name).None?;
        }
      }
    }
  }

  /** Source i is the first in which `find` succeeds, it finds f, and no earlier one has a file of that name. */
  ghost predicate FoundAt(sources: seq<Index>, find: Index -> Option<File>, i: nat, f: File)
  {
    && i < |sources| && find(sources[i]) == Some(f)
    && (forall k | 0 <= k < i :: find(sources[k]).None?)
    && (forall k | 0 <= k < i :: Lookup(sources[k].names, f.name).None?)
  }

  lemma MergedIs(sources: seq<Index>, find: Index -> Option<File>, f: File)
    ensures MergedFind(sources, find) == Some(f) <==> exists i :: FoundAt(sources, find, i, f)
  {
    hide Lookup;
    var r := FirstFound(sources, find);
    if MergedFind(sources, find) == Some(f) {
      assert FoundAt(sources, find, r, f);
    }
    if i :| FoundAt(sources, find, i, f) {
      assert r == i;
    }
  }

  /** The merged extension lookup, for any databases. */
  lemma MergedExtensionIsEntry(sources: seq<Index>, extendee: string, number: int32, f: File)
    requires AllCoherent(sources)
    ensures MergedFind(sources, ExtensionFinder(ExtensionKey(extendee, number))) == Some(f)
       <==> exists i :: ExtensionAnswer(sources, i, extendee, number, f)
  {
    hide Coherent, HasFile, HasExtension, Lookup, MergedFind, FoundAt, ExtensionAnswer;
    var find := ExtensionFinder(ExtensionKey(extendee, number));
    MergedIs(sources, find, f);
    forall i: nat
      ensures FoundAt(sources, find, i, f) <==> ExtensionAnswer(sources, i, extendee, number, f)
    {
      ExtensionFoundAt(sources, i, extendee, number, f);
    }
  }

  lemma ExtensionFoundAt(sources: seq<Index>, i: nat, extendee: string, number: int32, f: File)
    requires AllCoherent(sources)
    ensures FoundAt(sources, ExtensionFinder(ExtensionKey(extendee, number)), i, f)
       <==> ExtensionAnswer(sources, i, extendee, number, f)
  {
    hide Coherent, HasFile, HasExtension, Lookup;
    forall k | 0 <= k < |sources|
      ensures Lookup(sources[k].names, f.name).Some? <==> HasFile(sources[k], f.name)
      ensures Lookup(sources[k].extensions, ExtensionKey(extendee, number)) == Some(f)
         <==> (ExtensionKey(extendee, number), f) in sources[k].extensions
      ensures Lookup(sources[k].extensions, ExtensionKey(extendee, number)).Some?
         <==> HasExtension(sources[k], extendee, number)
    {
      FileIsEntry(sources[k], f.name, f);
      ExtensionIsEntry(sources[k], extendee, number, f);
    }
  }

  /** The merged symbol lookup, for databases whose maps are prefix-free. */
  lemma MergedSymbolIsEntry(sources: seq<Index>, name: string, f: File)
    requires AllCoherent(sources) && AllPrefixFree(sources)
    ensures MergedFind(sources, SymbolFinder(name)) == Some(f) <==> exists i :: SymbolAnswer(sources, i, name, f)
  {
    hide Coherent, HasFile, HasSymbol, Lookup, MergedFind, PrefixFree, FindSymbol, FoundAt, SymbolAnswer;
    var find := SymbolFinder(name);
    MergedIs(sources, find, f);
    forall i: nat
      ensures FoundAt(sources, find, i, f) <==> SymbolAnswer(sources, i, name, f)
    {
      SymbolFoundAt(sources, i, name, f);
    }
  }

  lemma SymbolFoundAt(sources: seq<Index>, i: nat, name: string, f: File)
    requires AllCoherent(sources) && AllPrefixFree(sources)
    ensures FoundAt(sources, SymbolFinder(name), i, f) <==> SymbolAnswer(sources, i, name, f)
  {
    hide Coherent, HasFile, HasSymbol, Lookup, PrefixFree, FindSymbol, Covers;
    forall k | 0 <= k < |sources|
      ensures Lookup(sources[k].names, f.name).Some? <==> HasFile(sources[k], f.name)
      ensures FindSymbol(sources[k].symbols, name) == Some(f)
         <==> Leads(sources[k].symbols, name, f)
      ensures FindSymbol(sources[k].symbols, name).Some? <==> HasSymbol(sources[k], name)
    {
      FileIsEntry(sources[k], f.name, f);
      SymbolIsEntry(sources[k], name, f);
    }
  }

  // ----- which Adds succeed -----

  /** One of the names is the other or an ancestor of it. */
  predicate Related(a: string, b: string)
  {
    Covers(a, b) || Covers(b, a)
  }

  /** The names at the top level of a file, with the package in front, in the order of their kinds. */
  function FullNames(file: File): seq<string>
  {
    var p := if file.package.Some? && file.package.value != "" then file.package.value + "." else "";
    seq(|file.messages|, k requires 0 <= k < |file.messages| => p + file.messages[k].name)
    + seq(|file.enums|, k requires 0 <= k < |file.enums| => p + file.enums[k])
    + seq(|file.extensions|, k requires 0 <= k < |file.extensions| => p + file.extensions[k].name)
    + seq(|file.services|, k requires 0 <= k < |file.services| => p + file.services[k])
  }

  /** The extensions in a message: those of its nested messages first. */
  function FieldsIn(m: Message): seq<Field>
    decreases m, 0
  {
    FieldsInAll(m.nested) + m.extensions
  }

  function FieldsInAll(ms: seq<Message>): seq<Field>
    decreases ms, 1
  {
    if ms == [] then [] else FieldsIn(ms[0]) + FieldsInAll(ms[1..])
  }

  /** No name is in the way of another or of one in the map, and no type and number is taken or used twice. */
  ghost predicate Clean(ix: Index, names: seq<string>, fields: seq<Field>)
  {
    && (forall k | 0 <= k < |names| :: ValidName(names[k]))
    && (forall k, e | 0 <= k < |names| && e in ix.symbols :: !Related(e.0, names[k]))
    && (forall j, k | 0 <= j < k < |names| :: !Related(names[j], names[k]))
    && (forall k | 0 <= k < |fields| && fields[k].extendee != "" && fields[k].extendee[0] == '.' ::
          !HasExtension(ix, fields[k].extendee[1..], fields[k].number))
    && (forall j, k | 0 <= j < k < |fields| && fields[k].extendee != "" && fields[k].extendee[0] == '.' ::
          fields[j].extendee != fields[k].extendee || fields[j].number != fields[k].number)
  }

  function Names(steps: seq<Step>): seq<string>
  {
    if steps == [] then [] else (if steps[0].Symbol? then [steps[0].name] else []) + Names(steps[1..])
  }

  function Fields(steps: seq<Step>): seq<Field>
  {
    if steps == [] then [] else (if steps[0].Extension? then [steps[0].field] else []) + Fields(steps[1..])
  }

  lemma {:induction false} ListsConcat(a: seq<Step>, b: seq<Step>)
    ensures Names(a + b) == Names(a) + Names(b) && Fields(a + b) == Fields(a) + Fields(b)
  {
    if a == [] {
      assert a + b == b;
    } else {
      assert (a + b)[1..] == a[1..] + b;
      ListsConcat(a[1..], b);
    }
  }

  lemma {:induction false} ExtensionLists(fields: seq<Field>)
    ensures Names(ExtensionSteps(fields)) == [] && Fields(ExtensionSteps(fields)) == fields
  {
    if fields == [] {
    } else {
      ExtensionLists(fields[1..]);
      assert ExtensionSteps(fields)[1..] == ExtensionSteps(fields[1..]);
    }
  }

  lemma {:induction false} NestedLists(m: Message)
    ensures Names(NestedSteps(m)) == [] && Fields(NestedSteps(m)) == FieldsIn(m)
    decreases m, 0
  {
    AllNestedLists(m.nested);
    ExtensionLists(m.extensions);
    ListsConcat(AllNestedSteps(m.nested), ExtensionSteps(m.extensions));
  }

  lemma {:induction false} AllNestedLists(ms: seq<Message>)
    ensures Names(AllNestedSteps(ms)) == [] && Fields(AllNestedSteps(ms)) == FieldsInAll(ms)
    decreases ms, 1
  {
    if ms == [] {
    } else {
      NestedLists(ms[0]);
      AllNestedLists(ms[1..]);
      ListsConcat(NestedSteps(ms[0]), AllNestedSteps(ms[1..]));
    }
  }

  lemma ListsOfSymbol(name: string)
    ensures Names([Symbol(name)]) == [name] && Fields([Symbol(name)]) == []
  {
    assert [Symbol(name)][1..] == [];
  }

  lemma ListsOfExtension(x: Field)
    ensures Names([Extension(x)]) == [] && Fields([Extension(x)]) == [x]
  {
    assert [Extension(x)][1..] == [];
  }

  lemma {:induction false} MessageLists(path: string, ms: seq<Message>)
    ensures Names(MessageSteps(path, ms)) == seq(|ms|, k requires 0 <= k < |ms| => path + ms[k].name)
    ensures Fields(MessageSteps(path, ms)) == FieldsInAll(ms)
  {
    if ms == [] {
    } else {
      hide Names, Fields, MessageSteps, FieldsInAll;
      MessageLists(path, ms[1..]);
      MessageListsHead(path, ms[0], ms[1..]);
      MoreMessageNames(path, ms);
      assert ms == [ms[0]] + ms[1..];
    }
  }

  lemma MessageListsHead(path: string, m: Message, ms: seq<Message>)
    ensures Names(MessageSteps(path, [m] + ms)) == [path + m.name] + Names(MessageSteps(path, ms))
    ensures Fields(MessageSteps(path, [m] + ms)) == FieldsIn(m) + Fields(MessageSteps(path, ms))
    ensures FieldsInAll([m] + ms) == FieldsIn(m) + FieldsInAll(ms)
  {
    assert ([m] + ms)[1..] == ms;
    var head, nested, more := [Symbol(path + m.name)], NestedSteps(m), MessageSteps(path, ms);
    assert MessageSteps(path, [m] + ms) == head + nested + more;
    hide Names, Fields, NestedSteps, MessageSteps, FieldsIn, FieldsInAll;
    NestedLists(m);
    ListsOfSymbol(path + m.name);
    ListsConcat(head + nested, more);
    ListsConcat(head, nested);
  }

  lemma MoreMessageNames(path: string, ms: seq<Message>)
    requires ms != []
    ensures seq(|ms|, k requires 0 <= k < |ms| => path + ms[k].name)
         == [path + ms[0].name] + seq(|ms[1..]|, k requires 0 <= k < |ms[1..]| => path + ms[1..][k].name)
  {
  }

  lemma {:induction false} SymbolLists(path: string, names: seq<string>)
    ensures Names(SymbolSteps(path, names)) == seq(|names|, k requires 0 <= k < |names| => path + names[k])
    ensures Fields(SymbolSteps(path, names)) == []
  {
    if names == [] {
    } else {
      SymbolLists(path, names[1..]);
      assert SymbolSteps(path, names)[1..] == SymbolSteps(path, names[1..]);
    }
  }

  lemma {:induction false} FieldLists(path: string, fields: seq<Field>)
    ensures Names(FieldSteps(path, fields)) == seq(|fields|, k requires 0 <= k < |fields| => path + fields[k].name)
    ensures Fields(FieldSteps(path, fields)) == fields
  {
    if fields == [] {
    } else {
      hide Names, Fields;
      var s, x := [Symbol(path + fields[0].name)], [Extension(fields[0])];
      FieldLists(path, fields[1..]);
      ListsOfSymbol(path + fields[0].name);
      ListsOfExtension(fields[0]);
      assert s + x == [Symbol(path + fields[0].name), Extension(fields[0])];
      ListsConcat(s, x);
      ListsConcat(s + x, FieldSteps(path, fields[1..]));
      MoreFieldNames(path, fields);
    }
  }

  lemma MoreFieldNames(path: string, fields: seq<Field>)
    requires fields != []
    ensures seq(|fields|, k requires 0 <= k < |fields| => path + fields[k].name)
         == [path + fields[0].name]
            + seq(|fields[1..]|, k requires 0 <= k < |fields[1..]| => path + fields[1..][k].name)
  {
  }

  /** What Add enters, and in which order: the names of each kind, and the extensions, those in messages first. */
  lemma StepsInOrder(file: File)
    ensures Names(Steps(file)) == FullNames(file)
    ensures Fields(Steps(file)) == FieldsInAll(file.messages) + file.extensions
  {
    hide MessageSteps, SymbolSteps, FieldSteps, Names, Fields, FieldsInAll;
    var p := Path(file);
    MessageLists(p, file.messages);
    SymbolLists(p, file.enums);
    FieldLists(p, file.extensions);
    SymbolLists(p, file.services);
    var m, e, x, s := MessageSteps(p, file.messages), SymbolSteps(p, file.enums), FieldSteps(p, file.extensions),
      SymbolSteps(p, file.services);
    ListsConcat(m, e + (x + s));
    ListsConcat(e, x + s);
    ListsConcat(x, s);
  }

  lemma RelatedIsConflict(ix: Index, name: string)
    ensures Conflicts(ix.symbols, name) <==> exists e :: e in ix.symbols && Related(e.0, name)
  {
    hide Covers, IsSubSymbol;
    forall e: (string, File)
      ensures Related(e.0, name) <==> IsSubSymbol(e.0, name) || IsSubSymbol(name, e.0)
    {
      CoversIsSubSymbol(e.0, name);
      CoversIsSubSymbol(name, e.0);
    }
    if i :| 0 <= i < |ix.symbols| && (IsSubSymbol(ix.symbols[i].0, name) || IsSubSymbol(name, ix.symbols[i].0)) {
      assert ix.symbols[i] in ix.symbols && Related(ix.symbols[i].0, name);
    }
  }

  lemma SymbolStepIsClean(ix: Index, name: string, file: File, names: seq<string>, fields: seq<Field>)
    requires Coherent(ix) && PrefixFree(ix.symbols) && !SkipsDescendant(ix.symbols, name)
    ensures AddSymbol(ix.symbols, name, file).None? ==> !Clean(ix, [name] + names, fields)
    ensures AddSymbol(ix.symbols, name, file).Some? ==>
      (Clean(ix, [name] + names, fields)
       <==> Clean(ix.(symbols := AddSymbol(ix.symbols, name, file).value), names, fields))
  {
    hide AddSymbol, Related, ValidName, SkipsDescendant, PrefixFree, ValidKeys, Conflicts, Clean, Coherent, WellFormed;
    CoherentIsWellFormed(ix);
    AddSymbolAccepts(ix.symbols, name, file);
    RelatedIsConflict(ix, name);
    CleanHead(ix, name, names, fields);
    if AddSymbol(ix.symbols, name, file).Some? {
      AddSymbolAddsOne(ix.symbols, name, file);
      CleanTail(ix, AddSymbol(ix.symbols, name, file).value, name, file, names, fields);
    }
  }

  lemma CoherentIsWellFormed(ix: Index)
    requires Coherent(ix)
    ensures WellFormed(ix.symbols)
  {
  }

  /** The first name is clean by itself, the others also beside it. */
  lemma CleanHead(ix: Index, name: string, names: seq<string>, fields: seq<Field>)
    ensures Clean(ix, [name] + names, fields) <==>
      && ValidName(name) && (forall e | e in ix.symbols :: !Related(e.0, name))
      && (forall k | 0 <= k < |names| :: !Related(name, names[k])) && Clean(ix, names, fields)
  {
    hide Related, ValidName, HasExtension;
    var all := [name] + names;
    assert all[0] == name && forall k | 0 <= k < |names| :: all[k + 1] == names[k];
    assert forall k | 1 <= k < |all| :: all[k] == names[k - 1];
  }

  lemma CleanTail(ix: Index, m: SymbolMap<File>, name: string, file: File, names: seq<string>, fields: seq<Field>)
    requires forall e :: e in m <==> e == (name, file) || e in ix.symbols
    ensures Clean(ix.(symbols := m), names, fields) <==>
      (forall k | 0 <= k < |names| :: !Related(name, names[k])) && Clean(ix, names, fields)
  {
    hide Related, ValidName;
    assert (name, file) in m;
  }

  lemma ExtensionStepIsClean(ix: Index, x: Field, file: File, names: seq<string>, fields: seq<Field>)
    requires Coherent(ix)
    ensures ApplyStep(ix, Extension(x), file).None? ==> !Clean(ix, names, [x] + fields)
    ensures ApplyStep(ix, Extension(x), file).Some? ==>
      (Clean(ix, names, [x] + fields) <==> Clean(ApplyStep(ix, Extension(x), file).value, names, fields))
  {
    hide Related, ValidName, ValidKeys, KeyLess, Insert, Less, TotalOrder, HasExtension, WellFormed;
    var all := [x] + fields;
    assert all[0] == x && forall k | 0 <= k < |fields| :: all[k + 1] == fields[k];
    assert forall k | 1 <= k < |all| :: all[k] == fields[k - 1];
    if Qualified(x) {
      var key := KeyOf(x);
      ExtensionIsEntry(ix, key.extendee, key.number, file);
      if Lookup(ix.extensions, key).None? {
        KeyLessIsTotalOrder();
        InsertAdds(KeyLess, ix.extensions, key, file);
        var m := Insert(KeyLess, ix.extensions, key, file);
        assert (key, file) in m;
        NewExtension(ix, m, key, file);
        forall y: Field | Qualified(y)
          ensures KeyOf(y) == key <==> y.extendee == x.extendee && y.number == x.number
        {
          assert y.extendee == "." + y.extendee[1..] && x.extendee == "." + x.extendee[1..];
        }
      }
    }
  }

  lemma NewExtension(ix: Index, m: ExtensionMap, key: ExtensionKey, file: File)
    requires forall e :: e in m <==> e == (key, file) || e in ix.extensions
    ensures forall extendee, number ::
      HasExtension(ix.(extensions := m), extendee, number)
      <==> HasExtension(ix, extendee, number) || key == ExtensionKey(extendee, number)
  {
    assert (key, file) in m;
    forall extendee, number | HasExtension(ix, extendee, number)
      ensures HasExtension(ix.(extensions := m), extendee, number)
    {
      var e :| e in ix.extensions && e.0 == ExtensionKey(extendee, number);
      assert e in m;
    }
  }

  /** Steps that skip nothing are all accepted exactly when they are clean. */
  lemma {:induction false} CleanStepsAreAccepted(ix: Index, steps: seq<Step>, file: File)
    requires Coherent(ix) && PrefixFree(ix.symbols) && (file.name, file) in ix.names
    requires !StepsSkip(ix, steps, file)
    ensures RunSteps(ix, steps, file).1 <==> Clean(ix, Names(steps), Fields(steps))
    decreases |steps|
  {
    hide Coherent, PrefixFree, Clean, SkipsDescendant, AddSymbol, InsertIfNotPresent;
    if steps == [] {
      NothingIsClean(ix);
    } else {
      var next := ApplyStep(ix, steps[0], file);
      if next.Some? {
        StepKeeps(ix, steps[0], file);
        StepStaysPrefixFree(ix, steps[0], file);
        CleanStepsAreAccepted(next.value, steps[1..], file);
      }
      match steps[0] {
        case Symbol(name) =>
          SymbolStepIsClean(ix, name, file, Names(steps[1..]), Fields(steps[1..]));
          assert [] + Fields(steps[1..]) == Fields(steps[1..]);
        case Extension(x) =>
          ExtensionStepIsClean(ix, x, file, Names(steps[1..]), Fields(steps[1..]));
          assert [] + Names(steps[1..]) == Names(steps[1..]);
      }
    }
  }

  lemma NothingIsClean(ix: Index)
    ensures Clean(ix, [], [])
  {
  }

  lemma StepStaysPrefixFree(ix: Index, step: Step, file: File)
    requires Coherent(ix) && PrefixFree(ix.symbols) && ApplyStep(ix, step, file).Some?
    requires step.Symbol? ==> !SkipsDescendant(ix.symbols, step.name)
    ensures PrefixFree(ApplyStep(ix, step, file).value.symbols)
  {
    hide PrefixFree, SkipsDescendant, AddSymbol;
    if step.Symbol? {
      AddSymbolPrefixFree(ix.symbols, step.name, file);
    }
  }

  /** A clean step skips nothing. */
  lemma {:induction false} CleanStepsSkipNothing(ix: Index, steps: seq<Step>, file: File)
    requires Coherent(ix) && PrefixFree(ix.symbols) && (file.name, file) in ix.names
    requires Clean(ix, Names(steps), Fields(steps))
    ensures !StepsSkip(ix, steps, file)
    decreases |steps|
  {
    hide Coherent, PrefixFree, Clean, SkipsDescendant, AddSymbol, InsertIfNotPresent;
    if steps == [] {
    } else {
      if steps[0].Symbol? {
        CleanSkipsNothing(ix, steps[0].name, Names(steps[1..]), Fields(steps));
      }
      var next := ApplyStep(ix, steps[0], file);
      if next.Some? {
        StepKeeps(ix, steps[0], file);
        StepStaysPrefixFree(ix, steps[0], file);
        match steps[0] {
          case Symbol(name) =>
            SymbolStepIsClean(ix, name, file, Names(steps[1..]), Fields(steps[1..]));
            assert [] + Fields(steps[1..]) == Fields(steps[1..]);
          case Extension(x) =>
            ExtensionStepIsClean(ix, x, file, Names(steps[1..]), Fields(steps[1..]));
            assert [] + Names(steps[1..]) == Names(steps[1..]);
        }
        CleanStepsSkipNothing(next.value, steps[1..], file);
      }
    }
  }

  lemma CleanSkipsNothing(ix: Index, name: string, names: seq<string>, fields: seq<Field>)
    requires Clean(ix, [name] + names, fields)
    ensures !SkipsDescendant(ix.symbols, name)
  {
    hide Related, IsSubSymbol, Covers;
    var all := [name] + names;
    assert all[0] == name;
    if SkipsDescendant(ix.symbols, name) {
      var e := ix.symbols[0];
      assert e in ix.symbols && !Related(e.0, all[0]);
      CoversIsSubSymbol(name, e.0);
      NotRelated(e.0, name);
    }
  }

  lemma NotRelated(a: string, b: string)
    ensures Related(a, b) <==> Covers(a, b) || Covers(b, a)
  {
  }

  /**
   * Which files Add accepts, while the map is prefix-free: those with a new name in which no name and no extension is
   * in the way of another or of what is there; and, only by stepping over a descendant, some that are not clean.
   */
  lemma AddAccepts(ix: Index, file: File)
    requires Coherent(ix) && PrefixFree(ix.symbols)
    ensures var clean := !HasFile(ix, file.name)
                         && Clean(ix, FullNames(file), FieldsInAll(file.messages) + file.extensions);
      && (clean ==> AddFile(ix, file).1 && !AddSkips(ix, file))
      && (!AddSkips(ix, file) ==> (AddFile(ix, file).1 <==> clean))
  {
    hide TotalOrder, Insert, WellFormed, KeyLess, Less, Steps, RunSteps, StepsSkip, PrefixFree, Clean, FullNames,
      FieldsInAll;
    FileIsEntry(ix, file.name, file);
    StepsInOrder(file);
    var names := InsertIfNotPresent(Less, ix.names, file.name, file);
    if names.Some? {
      LessIsTotalOrder();
      InsertAdds(Less, ix.names, file.name, file);
      assert (file.name, file) in names.value;
      var started := ix.(names := names.value);
      CleanIsAboutSymbols(ix, started, FullNames(file), FieldsInAll(file.messages) + file.extensions);
      if Clean(started, Names(Steps(file)), Fields(Steps(file))) {
        CleanStepsSkipNothing(started, Steps(file), file);
      }
      if !StepsSkip(started, Steps(file), file) {
        CleanStepsAreAccepted(started, Steps(file), file);
      }
    }
  }

  lemma CleanIsAboutSymbols(ix: Index, started: Index, names: seq<string>, fields: seq<Field>)
    requires started.symbols == ix.symbols && started.extensions == ix.extensions
    ensures Clean(started, names, fields) <==> Clean(ix, names, fields)
  {
    hide Related;
  }
}
