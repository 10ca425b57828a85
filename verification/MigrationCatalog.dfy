/** Collecting every app's migrations into one catalog (migrations/migrations.go). */
module MigrationCatalog {
  import opened Options
  import opened GoStrings
  import opened MigrationNames

  /** One file as a walk meets it: the app, the base name, the content, and whether reading it works. */
  datatype File = File(app: string, base: string, content: string, readable: bool)

  /** What an app offers: nothing, a nil filesystem, or the files of one walk, which may then break off. */
  datatype Provider = NotProvider | NilFilesystem | Walk(files: seq<File>, broken: bool)

  datatype Pair = Pair(name: string, app: string, files: map<(string, string), string>)

  datatype Catalog = Catalog(names: seq<string>, combined: map<(string, string), string>)

  datatype Error =
    | NilProject | UnsupportedDialect | NilProvider | BrokenWalk
    | InvalidName | DuplicateIdentity | DuplicateFile | Unreadable
    | MissingDirection | NotDiscovered

  datatype Result<T> = Ok(value: T) | Err(error: Error)

  predicate Dialect(dialect: string) {
    dialect == "postgres" || dialect == "sqlite"
  }

  predicate IsSql(file: File) {
    HasSuffix(file.base, ".sql")
  }

  /** The parsed name of a file that has one. */
  predicate Named(file: File) {
    IsSql(file) && Parse(file.base).Some?
  }

  function Id(file: File): string
    requires Named(file)
  {
    Parse(file.base).value.identity
  }

  function FullName(file: File): string
    requires Named(file)
  {
    Id(file) + "_" + Parse(file.base).value.name
  }

  /** Variant and direction. */
  function Slot(file: File): (string, string)
    requires Named(file)
  {
    (Parse(file.base).value.variant, Parse(file.base).value.direction)
  }

  // ---------------------------------------------------------------- what is accepted, independent of order

  /** Two files of one identity that cannot both stand: another name, another app, or the same slot. */
  ghost predicate Clash(f: File, g: File) {
    && Named(f) && Named(g) && Id(f) == Id(g)
    && (FullName(f) != FullName(g) || f.app != g.app || Slot(f) == Slot(g))
  }

  /** Every SQL name parses; each identity has one name and one app; no slot of an identity is taken twice. */
  ghost predicate Consistent(files: multiset<File>) {
    && (forall f :: f in files && IsSql(f) ==> Named(f) && f.readable)
    && (forall f, g :: f in files && g in files && Clash(f, g) ==> f == g && files[f] == 1)
  }

  ghost predicate Fills(files: multiset<File>, f: File, id: string, slot: (string, string)) {
    f in files && Named(f) && Id(f) == id && Slot(f) == slot
  }

  /** f is the file a direction resolves to: the dialect's own variant if there is one, else the shared file. */
  ghost predicate Resolves(files: multiset<File>, f: File, id: string, dialect: string, direction: string) {
    || Fills(files, f, id, (dialect, direction))
    || (Fills(files, f, id, ("", direction)) && forall g :: !Fills(files, g, id, (dialect, direction)))
  }

  ghost predicate Complete(files: multiset<File>, dialect: string) {
    forall f, direction :: f in files && Named(f) && Direction(direction) ==>
      exists g :: Resolves(files, g, Id(f), dialect, direction)
  }

  ghost predicate Acceptable(files: multiset<File>, dialect: string) {
    Consistent(files) && Complete(files, dialect)
  }

  /** The files that each refusal of the walk complains about. */
  ghost predicate Shows(files: multiset<File>, error: Error) {
    match error
    case InvalidName => exists f :: f in files && IsSql(f) && !Named(f)
    case DuplicateIdentity =>
      exists f, g :: f in files && g in files && Named(f) && Named(g) && Id(f) == Id(g) &&
                     (FullName(f) != FullName(g) || f.app != g.app)
    case DuplicateFile =>
      exists f, g :: f in files && g in files && Named(f) && Named(g) && Id(f) == Id(g) && Slot(f) == Slot(g) &&
                     (f == g ==> files[f] > 1)
    case Unreadable => exists f :: f in files && Named(f) && !f.readable
    case _ => false
  }

  predicate WalkError(error: Error) {
    error == InvalidName || error == DuplicateIdentity || error == DuplicateFile || error == Unreadable
  }

  predicate Less(a: string, b: string) {
    if b == "" then false
    else if a == "" then true
    else a[0] < b[0] || (a[0] == b[0] && Less(a[1..], b[1..]))
  }

  predicate Ascending(names: seq<string>) {
    forall i, j :: 0 <= i < j < |names| ==> Less(names[i], names[j])
  }

  function TargetPath(app: string, name: string, direction: string): (string, string) {
    (app, name + ".tx." + direction + ".sql")
  }

  /** One direction of a file's migration is in the combined files, with the SQL it resolves to. */
  ghost predicate Provides(files: multiset<File>, dialect: string, combined: map<(string, string), string>, f: File,
                           direction: string)
    requires Named(f)
  {
    var target := TargetPath(f.app, FullName(f), direction);
    target in combined && exists g :: Resolves(files, g, Id(f), dialect, direction) && combined[target] == g.content
  }

  /** The one catalog the files stand for: one name per identity in order, and both directions of each. */
  ghost predicate IsCatalog(files: multiset<File>, dialect: string, catalog: Catalog) {
    && Ascending(catalog.names)
    && (forall n :: n in catalog.names <==> exists f :: f in files && Named(f) && n == FullName(f))
    && (forall f, d :: f in files && Named(f) && Direction(d) ==> Provides(files, dialect, catalog.combined, f, d))
    && (forall p :: p in catalog.combined ==>
          exists f, d :: f in files && Named(f) && Direction(d) && p == TargetPath(f.app, FullName(f), d))
  }

  // ---------------------------------------------------------------- the collecting loop

  predicate Recorded(pairs: map<string, Pair>, f: File)
    requires Named(f)
  {
    && Id(f) in pairs && pairs[Id(f)].name == FullName(f) && pairs[Id(f)].app == f.app
    && Slot(f) in pairs[Id(f)].files && pairs[Id(f)].files[Slot(f)] == f.content
  }

  /** The pairs hold exactly the named files seen so far. */
  ghost predicate Holds(pairs: map<string, Pair>, seen: multiset<File>) {
    && (forall f :: f in seen && Named(f) ==> Recorded(pairs, f))
    && (forall id :: id in pairs ==>
          && (exists f :: f in seen && Named(f) && Id(f) == id)
          && (forall slot :: slot in pairs[id].files ==> exists f :: Fills(seen, f, id, slot)))
  }

  /** The walk callback for one file. */
  function AddFile(pairs: map<string, Pair>, file: File): Result<map<string, Pair>> {
    if !IsSql(file) then Ok(pairs)
    else if !Named(file) then Err(InvalidName)
    else
      var id := Id(file);
      if id in pairs && (pairs[id].name != FullName(file) || pairs[id].app != file.app) then Err(DuplicateIdentity)
      else
        var current := if id in pairs then pairs[id] else Pair(FullName(file), file.app, map[]);
        if Slot(file) in current.files then Err(DuplicateFile)
        else if !file.readable then Err(Unreadable)
        else Ok(pairs[id := current.(files := current.files[Slot(file) := file.content])])
  }

  lemma NamedIsSql(file: File)
    ensures Named(file) ==> IsSql(file)
  {
  }

  /** The callback refuses a named file exactly when an earlier one clashes with it. */
  lemma RefusesClash(pairs: map<string, Pair>, seen: multiset<File>, file: File)
    requires Holds(pairs, seen) && Named(file)
    ensures AddFile(pairs, file).Ok? <==> file.readable && forall f :: f in seen ==> !Clash(f, file)
  {
    hide Named, IsSql, Id, FullName, Slot;
    var id := Id(file);
    assert IsSql(file) by {
      NamedIsSql(file);
    }
    if AddFile(pairs, file).Err? && id in pairs {
      if Slot(file) in pairs[id].files {
        var g :| Fills(seen, g, id, Slot(file));
        assert Clash(g, file);
      } else if pairs[id].name != FullName(file) || pairs[id].app != file.app {
        var f :| f in seen && Named(f) && Id(f) == id;
        assert Clash(f, file);
      }
    }
  }

  lemma BadNameShows(seen: multiset<File>, file: File)
    requires IsSql(file) && !Named(file)
    ensures Shows(seen + multiset{file}, InvalidName)
  {
    hide Named, IsSql;
    assert file in seen + multiset{file};
  }

  lemma UnreadableShows(seen: multiset<File>, file: File)
    requires Named(file)
    ensures !file.readable ==> Shows(seen + multiset{file}, Unreadable)
  {
    hide Named, IsSql;
    assert file in seen + multiset{file};
  }

  lemma OtherNameShows(seen: multiset<File>, f: File, file: File)
    requires f in seen && Named(f) && Named(file) && Id(f) == Id(file)
    requires FullName(f) != FullName(file) || f.app != file.app
    ensures Shows(seen + multiset{file}, DuplicateIdentity)
  {
    hide Named, IsSql, Id, FullName, Slot;
    assert f in seen + multiset{file} && file in seen + multiset{file};
  }

  lemma SameSlotShows(seen: multiset<File>, f: File, file: File)
    requires f in seen && Named(f) && Named(file) && Id(f) == Id(file) && Slot(f) == Slot(file)
    ensures Shows(seen + multiset{file}, DuplicateFile)
  {
    hide Named, IsSql, Id, FullName, Slot;
    var more := seen + multiset{file};
    assert f in more && file in more && (f == file ==> more[f] > 1);
  }

  lemma KnownIdentityShows(pairs: map<string, Pair>, seen: multiset<File>, file: File)
    requires Holds(pairs, seen) && Named(file) && Id(file) in pairs
    ensures pairs[Id(file)].name != FullName(file) || pairs[Id(file)].app != file.app ==>
              Shows(seen + multiset{file}, DuplicateIdentity)
    ensures Slot(file) in pairs[Id(file)].files ==> Shows(seen + multiset{file}, DuplicateFile)
  {
    hide Named, IsSql, Id, FullName, Slot, Shows;
    var f :| f in seen && Named(f) && Id(f) == Id(file);
    assert Recorded(pairs, f);
    if pairs[Id(file)].name != FullName(file) || pairs[Id(file)].app != file.app {
      OtherNameShows(seen, f, file);
    }
    if Slot(file) in pairs[Id(file)].files {
      var g :| Fills(seen, g, Id(file), Slot(file));
      SameSlotShows(seen, g, file);
    }
  }

  /** An error of the callback is shown by the files seen so far and the new one. */
  lemma RefusalShows(pairs: map<string, Pair>, seen: multiset<File>, file: File)
    requires Holds(pairs, seen) && AddFile(pairs, file).Err?
    ensures WalkError(AddFile(pairs, file).error)
    ensures Shows(seen + multiset{file}, AddFile(pairs, file).error)
  {
    hide Named, IsSql, Id, FullName, Slot, Holds, Shows;
    if !Named(file) {
      BadNameShows(seen, file);
    } else {
      UnreadableShows(seen, file);
      if Id(file) in pairs {
        KnownIdentityShows(pairs, seen, file);
      }
    }
  }

  lemma ShowsMore(part: multiset<File>, whole: multiset<File>, error: Error)
    requires part <= whole && Shows(part, error)
    ensures Shows(whole, error)
  {
    hide Named, IsSql, Id, FullName, Slot;
    assert forall f :: f in part ==> f in whole && part[f] <= whole[f];
  }

  lemma NewIds(pairs: map<string, Pair>, file: File)
    requires Named(file) && AddFile(pairs, file).Ok?
    ensures forall id :: id in AddFile(pairs, file).value <==> id in pairs || id == Id(file)
  {
    hide Named, Id, FullName, Slot;
    NamedIsSql(file);
  }

  lemma StaysRecorded(pairs: map<string, Pair>, file: File, f: File)
    requires Named(file) && Named(f) && AddFile(pairs, file).Ok? && Recorded(pairs, f)
    ensures Recorded(AddFile(pairs, file).value, f)
  {
    NamedIsSql(file);
    hide Named, IsSql, Id, FullName, Slot;
  }

  lemma NewlyRecorded(pairs: map<string, Pair>, file: File)
    requires Named(file) && AddFile(pairs, file).Ok?
    ensures Recorded(AddFile(pairs, file).value, file)
  {
    NamedIsSql(file);
    hide Named, IsSql, Id, FullName, Slot;
  }

  lemma AddNamedKeeps(pairs: map<string, Pair>, seen: multiset<File>, file: File)
    requires Holds(pairs, seen) && Named(file) && AddFile(pairs, file).Ok?
    ensures var pairs' := AddFile(pairs, file).value;
            && (forall f :: f in seen + multiset{file} && Named(f) ==> Recorded(pairs', f))
            && (forall id :: id in pairs' ==> exists f :: f in seen + multiset{file} && Named(f) && Id(f) == id)
  {
    var pairs' := AddFile(pairs, file).value;
    RefusesClash(pairs, seen, file);
    assert forall f :: f in seen + multiset{file} <==> f in seen || f == file;
    forall f | f in seen + multiset{file} && Named(f) ensures Recorded(pairs', f) {
      if f in seen {
        StaysRecorded(pairs, file, f);
      } else {
        NewlyRecorded(pairs, file);
      }
    }
    NewIds(pairs, file);
    hide Named, IsSql, Id, FullName, Slot, AddFile, Recorded;
    forall id | id in pairs' ensures exists f :: f in seen + multiset{file} && Named(f) && Id(f) == id {
      if id == Id(file) {
        assert file in seen + multiset{file};
      } else {
        var f :| f in seen && Named(f) && Id(f) == id;
        assert f in seen + multiset{file};
      }
    }
  }

  lemma AddNamedHolds(pairs: map<string, Pair>, seen: multiset<File>, file: File)
    requires Holds(pairs, seen) && Named(file) && AddFile(pairs, file).Ok?
    ensures Holds(AddFile(pairs, file).value, seen + multiset{file})
  {
    hide Named, IsSql, Id, FullName, Slot;
    NamedIsSql(file);
    var more, id := seen + multiset{file}, Id(file);
    var pairs' := AddFile(pairs, file).value;
    assert forall f :: f in more <==> f in seen || f == file;
    forall other, slot | other in pairs' && slot in pairs'[other].files
      ensures exists f :: Fills(more, f, other, slot)
    {
      if other == id && slot == Slot(file) {
        assert Fills(more, file, other, slot);
      } else {
        var f :| Fills(seen, f, other, slot);
        assert Fills(more, f, other, slot);
      }
    }
    AddNamedKeeps(pairs, seen, file);
  }

  lemma ClashSymmetric(f: File, g: File)
    ensures Clash(f, g) <==> Clash(g, f)
  {
  }

  lemma ConsistentWithOneMore(seen: multiset<File>, file: File)
    requires Consistent(seen)
    ensures Consistent(seen + multiset{file}) <==>
            (IsSql(file) ==> Named(file) && file.readable) && forall f :: f in seen ==> !Clash(f, file)
  {
    hide Named, IsSql, Clash;
    var more := seen + multiset{file};
    assert forall f :: f in more <==> f in seen || f == file;
    assert forall f :: f != file ==> more[f] == seen[f];
    assert more[file] == seen[file] + 1;
    forall f ensures Clash(f, file) <==> Clash(file, f) {
      ClashSymmetric(f, file);
    }
    if Consistent(more) {
      forall f | f in seen ensures !Clash(f, file) {
        assert f in more && file in more;
      }
    }
  }

  lemma UnnamedHolds(pairs: map<string, Pair>, seen: multiset<File>, file: File)
    requires Holds(pairs, seen) && !Named(file)
    ensures Holds(pairs, seen + multiset{file})
    ensures AddFile(pairs, file) == if IsSql(file) then Err(InvalidName) else Ok(pairs)
  {
    hide Named, IsSql, Id, FullName, Slot;
    var more := seen + multiset{file};
    assert forall f :: f in more <==> f in seen || f == file;
    forall id, slot | id in pairs && slot in pairs[id].files ensures exists f :: Fills(more, f, id, slot) {
      var f :| Fills(seen, f, id, slot);
      assert Fills(more, f, id, slot);
    }
  }

  lemma AddFileHolds(pairs: map<string, Pair>, seen: multiset<File>, file: File)
    requires Holds(pairs, seen) && Consistent(seen)
    ensures AddFile(pairs, file).Ok? <==> Consistent(seen + multiset{file})
    ensures AddFile(pairs, file).Ok? ==> Holds(AddFile(pairs, file).value, seen + multiset{file})
  {
    ConsistentWithOneMore(seen, file);
    NamedIsSql(file);
    if Named(file) {
      RefusesClash(pairs, seen, file);
      if AddFile(pairs, file).Ok? {
        AddNamedHolds(pairs, seen, file);
      }
    } else {
      assert forall f :: !Clash(f, file);
      UnnamedHolds(pairs, seen, file);
    }
    hide Named, IsSql, Holds, Consistent;
  }

  /** A part of a consistent collection is consistent. */
  lemma PartConsistent(part: multiset<File>, whole: multiset<File>)
    requires part <= whole && Consistent(whole)
    ensures Consistent(part)
  {
    hide Named, IsSql, Clash;
    assert forall f :: f in part ==> f in whole && part[f] <= whole[f];
  }

  function FilesOf(provider: Provider): seq<File> {
    match provider
    case Walk(files, _) => files
    case _ => []
  }

  function AllFiles(providers: seq<Provider>): seq<File> {
    if providers == [] then []
    else AllFiles(providers[..|providers| - 1]) + FilesOf(providers[|providers| - 1])
  }

  lemma AllFilesNext(providers: seq<Provider>, i: nat)
    requires i < |providers|
    ensures AllFiles(providers[..i + 1]) == AllFiles(providers[..i]) + FilesOf(providers[i])
  {
    assert providers[..i + 1][..i] == providers[..i];
  }

  lemma {:induction false} AllFilesPrefix(providers: seq<Provider>, n: nat)
    requires n <= |providers|
    ensures AllFiles(providers[..n]) <= AllFiles(providers)
  {
    if n < |providers| {
      AllFilesPrefix(providers[..|providers| - 1], n);
      assert providers[..|providers| - 1][..n] == providers[..n];
    } else {
      assert providers[..n] == providers;
    }
  }

  /** The app has no filesystem, or the walk over it breaks off. */
  predicate Fails(p: Provider) {
    p == NilFilesystem || (p.Walk? && p.broken)
  }

  ghost predicate NoneFail(providers: seq<Provider>) {
    forall p :: p in providers ==> !Fails(p)
  }

  predicate FailsWith(p: Provider, error: Error) {
    (error == NilProvider && p == NilFilesystem) || (error == BrokenWalk && p.Walk? && p.broken)
  }

  ghost predicate NoClash(files: seq<File>) {
    Consistent(multiset(files))
  }

  ghost predicate Gathered(pairs: map<string, Pair>, files: seq<File>) {
    Consistent(multiset(files)) && Holds(pairs, multiset(files))
  }

  ghost predicate ProviderError(met: seq<File>, provider: Provider, error: Error) {
    FailsWith(provider, error) || (WalkError(error) && Shows(multiset(met + FilesOf(provider)), error))
  }

  ghost predicate GatherError(providers: seq<Provider>, error: Error) {
    (exists p :: p in providers && FailsWith(p, error)) ||
    (WalkError(error) && Shows(multiset(AllFiles(providers)), error))
  }

  lemma PrefixMultiset(part: seq<File>, whole: seq<File>)
    requires part <= whole
    ensures multiset(part) <= multiset(whole)
  {
    assert whole == part + whole[|part|..];
  }

  lemma PartOfAll(providers: seq<Provider>, n: nat)
    requires n <= |providers|
    ensures NoClash(AllFiles(providers)) ==> NoClash(AllFiles(providers[..n]))
  {
    hide Consistent;
    AllFilesPrefix(providers, n);
    PrefixMultiset(AllFiles(providers[..n]), AllFiles(providers));
    if NoClash(AllFiles(providers)) {
      PartConsistent(multiset(AllFiles(providers[..n])), multiset(AllFiles(providers)));
    }
  }

  lemma PartRefused(providers: seq<Provider>, i: nat, error: Error)
    requires i < |providers| && ProviderError(AllFiles(providers[..i]), providers[i], error)
    requires Fails(providers[i]) || !NoClash(AllFiles(providers[..i]) + FilesOf(providers[i]))
    ensures GatherError(providers, error)
    ensures !(NoneFail(providers) && NoClash(AllFiles(providers)))
  {
    hide Shows, Consistent;
    assert providers[i] in providers;
    AllFilesNext(providers, i);
    PartOfAll(providers, i + 1);
    AllFilesPrefix(providers, i + 1);
    PrefixMultiset(AllFiles(providers[..i + 1]), AllFiles(providers));
    if !FailsWith(providers[i], error) {
      ShowsMore(multiset(AllFiles(providers[..i + 1])), multiset(AllFiles(providers)), error);
    }
  }

  lemma PartKept(providers: seq<Provider>, i: nat)
    requires i < |providers| && NoneFail(providers[..i]) && !Fails(providers[i])
    ensures NoneFail(providers[..i + 1])
    ensures AllFiles(providers[..i + 1]) == AllFiles(providers[..i]) + FilesOf(providers[i])
  {
    AllFilesNext(providers, i);
    assert providers[..i + 1] == providers[..i] + [providers[i]];
  }

  lemma GatheredNoClash(pairs: map<string, Pair>, files: seq<File>)
    ensures Gathered(pairs, files) ==> NoClash(files)
  {
  }

  /** One app's walk, on top of the files met before it. */
  method WalkFiles(start: map<string, Pair>, ghost before: seq<File>, files: seq<File>)
    returns (result: Result<map<string, Pair>>)
    requires Gathered(start, before)
    ensures result.Ok? <==> NoClash(before + files)
    ensures result.Err? ==> WalkError(result.error) && Shows(multiset(before + files), result.error)
    ensures result.Ok? ==> Gathered(result.value, before + files)
  {
    hide Named, IsSql, Consistent, Holds, AddFile, Shows;
    var pairs := start;
    assert before + files[..0] == before;
    for j := 0 to |files|
      invariant Gathered(pairs, before + files[..j])
    {
      assert before + files[..j + 1] == (before + files[..j]) + [files[j]];
      AddFileHolds(pairs, multiset(before + files[..j]), files[j]);
      var added := AddFile(pairs, files[j]);
      if added.Err? {
        PrefixMultiset(before + files[..j + 1], before + files);
        RefusalShows(pairs, multiset(before + files[..j]), files[j]);
        ShowsMore(multiset(before + files[..j + 1]), multiset(before + files), added.error);
        if Consistent(multiset(before + files)) {
          PartConsistent(multiset(before + files[..j + 1]), multiset(before + files));
        }
        return added;
      }
      pairs := added.value;
    }
    assert files[..|files|] == files;
    return Ok(pairs);
  }

  /** One app: skipped when it provides no migrations, refused when its filesystem is nil or its walk breaks off. */
  method WalkProvider(pairs: map<string, Pair>, ghost met: seq<File>, provider: Provider)
    returns (result: Result<map<string, Pair>>)
    requires Gathered(pairs, met)
    ensures result.Ok? <==> !Fails(provider) && NoClash(met + FilesOf(provider))
    ensures result.Err? ==> ProviderError(met, provider, result.error)
    ensures result.Ok? ==> Gathered(result.value, met + FilesOf(provider))
  {
    hide Consistent, Holds, Shows;
    match provider
    case NotProvider =>
      assert met + FilesOf(provider) == met;
      return Ok(pairs);
    case NilFilesystem => return Err(NilProvider);
    case Walk(files, broken) =>
      result := WalkFiles(pairs, met, files);
      if result.Ok? && broken {
        return Err(BrokenWalk);
      }
  }

  lemma NothingHolds()
    ensures Gathered(map[], [])
  {
  }

  /** The first half of CollectForDialect: walk every app's files into pairs. */
  method Gather(providers: seq<Provider>) returns (result: Result<map<string, Pair>>)
    ensures result.Ok? <==> NoneFail(providers) && NoClash(AllFiles(providers))
    ensures result.Err? ==> GatherError(providers, result.error)
    ensures result.Ok? ==> Gathered(result.value, AllFiles(providers))
  {
    var pairs: map<string, Pair> := map[];
    NothingHolds();
    assert AllFiles(providers[..0]) == [];
    hide Gathered, NoClash, AllFiles, FilesOf, ProviderError, GatherError, Fails;
    for i := 0 to |providers|
      invariant NoneFail(providers[..i]) && Gathered(pairs, AllFiles(providers[..i]))
    {
      hide NoneFail;
      result := WalkProvider(pairs, AllFiles(providers[..i]), providers[i]);
      if result.Err? {
        PartRefused(providers, i, result.error);
        return;
      }
      PartKept(providers, i);
      pairs := result.value;
    }
    assert providers[..|providers|] == providers;
    GatheredNoClash(pairs, AllFiles(providers));
    return Ok(pairs);
  }

  // ---------------------------------------------------------------- the resolving loop

  /** A direction's SQL in one pair: the dialect variant if present, else the shared file. */
  function Chosen(pair: Pair, dialect: string, direction: string): Option<string> {
    if (dialect, direction) in pair.files then Some(pair.files[(dialect, direction)])
    else if ("", direction) in pair.files then Some(pair.files[("", direction)])
    else None
  }

  /** A slot of an identity is recorded exactly when a file fills it, and then with that file's content. */
  lemma SlotHolds(pairs: map<string, Pair>, files: multiset<File>, id: string, slot: (string, string))
    requires Holds(pairs, files) && id in pairs
    ensures slot in pairs[id].files <==> exists f :: Fills(files, f, id, slot)
    ensures forall f :: Fills(files, f, id, slot) ==> slot in pairs[id].files && pairs[id].files[slot] == f.content
  {
    hide Named, IsSql, Id, FullName, Slot;
    forall f | Fills(files, f, id, slot) ensures slot in pairs[id].files && pairs[id].files[slot] == f.content {
      assert Recorded(pairs, f);
    }
  }

  /** Choosing from a pair resolves the direction among the files the pairs hold. */
  lemma ChosenResolves(pairs: map<string, Pair>, files: multiset<File>, id: string, dialect: string, direction: string)
    requires Holds(pairs, files) && Consistent(files) && id in pairs && Dialect(dialect)
    ensures Chosen(pairs[id], dialect, direction).Some? <==> exists g :: Resolves(files, g, id, dialect, direction)
    ensures forall g :: Resolves(files, g, id, dialect, direction) ==>
              Chosen(pairs[id], dialect, direction) == Some(g.content)
  {
    hide Holds, Consistent, Fills;
    var own, shared := (dialect, direction), ("", direction);
    SlotHolds(pairs, files, id, own);
    SlotHolds(pairs, files, id, shared);
    if own in pairs[id].files {
      var f :| Fills(files, f, id, own);
      assert Resolves(files, f, id, dialect, direction);
    } else if shared in pairs[id].files {
      var f :| Fills(files, f, id, shared);
      assert Resolves(files, f, id, dialect, direction);
    }
  }

  /** A pair's name starts with its identity and holds no dot. */
  ghost predicate PairsNamed(pairs: map<string, Pair>) {
    forall id :: id in pairs ==>
      |id| <= |pairs[id].name| && pairs[id].name[..|id|] == id && |id| == 14 && '.' !in pairs[id].name
  }

  lemma FullNameShape(file: File)
    requires Named(file)
    ensures |Id(file)| == 14 && Id(file) <= FullName(file) && '.' !in FullName(file)
    ensures Direction(Slot(file).1)
  {
    var parsed := Parse(file.base).value;
    ParseExactly(file.base, parsed);
    hide Parse;
    assert forall c :: c in FullName(file) ==> c in parsed.identity || c == '_' || c in parsed.name;
  }

  lemma HoldsNamed(pairs: map<string, Pair>, files: multiset<File>)
    requires Holds(pairs, files)
    ensures PairsNamed(pairs)
  {
    hide Named, IsSql, Id, FullName, Slot;
    forall id | id in pairs
      ensures |id| <= |pairs[id].name| && pairs[id].name[..|id|] == id && |id| == 14 && '.' !in pairs[id].name
    {
      var f :| f in files && Named(f) && Id(f) == id;
      FullNameShape(f);
    }
  }

  lemma TargetParts(name: string, direction: string)
    ensures name + ".tx." + direction + ".sql" == name + ['.'] + ("tx" + ['.'] + (direction + ['.'] + "sql"))
  {
    assert ".tx." == ['.'] + "tx" + ['.'] && ".sql" == ['.'] + "sql";
  }

  lemma TargetTellsName(app: string, a: string, d: string, app': string, b: string, e: string)
    requires TargetPath(app, a, d) == TargetPath(app', b, e)
    requires Direction(d) && Direction(e) && '.' !in a && '.' !in b
    ensures app == app' && a == b && d == e
  {
    TargetParts(a, d);
    TargetParts(b, e);
    var tx, sql := "tx", "sql";
    HeadDetermined(a, tx + ['.'] + (d + ['.'] + sql), b, tx + ['.'] + (e + ['.'] + sql), '.');
    HeadDetermined(tx, d + ['.'] + sql, tx, e + ['.'] + sql, '.');
    HeadDetermined(d, sql, e, sql, '.');
  }

  lemma DistinctTargets(pairs: map<string, Pair>, a: string, d: string, b: string, e: string)
    requires PairsNamed(pairs) && a in pairs && b in pairs && Direction(d) && Direction(e)
    ensures TargetPath(pairs[a].app, pairs[a].name, d) == TargetPath(pairs[b].app, pairs[b].name, e) <==>
            a == b && d == e
    ensures pairs[a].name == pairs[b].name <==> a == b
  {
    if TargetPath(pairs[a].app, pairs[a].name, d) == TargetPath(pairs[b].app, pairs[b].name, e) {
      TargetTellsName(pairs[a].app, pairs[a].name, d, pairs[b].app, pairs[b].name, e);
    }
    hide TargetPath;
  }

  function Target(pairs: map<string, Pair>, t: (string, string)): (string, string)
    requires t.0 in pairs
  {
    TargetPath(pairs[t.0].app, pairs[t.0].name, t.1)
  }

  /** The combined files hold the chosen SQL of these id and direction pairs, and nothing else. */
  ghost predicate Filled(pairs: map<string, Pair>, done: set<(string, string)>, dialect: string,
                         combined: map<(string, string), string>) {
    && (forall t :: t in done ==>
          && t.0 in pairs && Direction(t.1) && Chosen(pairs[t.0], dialect, t.1).Some?
          && Target(pairs, t) in combined && combined[Target(pairs, t)] == Chosen(pairs[t.0], dialect, t.1).value)
    && (forall p :: p in combined ==> exists t :: t in done && t.0 in pairs && p == Target(pairs, t))
  }

  lemma FillOne(pairs: map<string, Pair>, done: set<(string, string)>, dialect: string,
                combined: map<(string, string), string>, t: (string, string))
    requires PairsNamed(pairs) && Filled(pairs, done, dialect, combined)
    requires t.0 in pairs && Direction(t.1) && t !in done && Chosen(pairs[t.0], dialect, t.1).Some?
    ensures Filled(pairs, done + {t}, dialect, combined[Target(pairs, t) := Chosen(pairs[t.0], dialect, t.1).value])
  {
    forall u | u in done ensures Target(pairs, u) != Target(pairs, t) {
      DistinctTargets(pairs, u.0, u.1, t.0, t.1);
    }
    hide Target, Chosen, PairsNamed, Direction;
    var after := combined[Target(pairs, t) := Chosen(pairs[t.0], dialect, t.1).value];
    forall p | p in after ensures exists u :: u in done + {t} && u.0 in pairs && p == Target(pairs, u) {
      if p in combined {
        var u :| u in done && u.0 in pairs && p == Target(pairs, u);
        assert u in done + {t};
      } else {
        assert t in done + {t};
      }
    }
  }

  function Targets(ids: set<string>): set<(string, string)> {
    (set id | id in ids :: (id, "up")) + (set id | id in ids :: (id, "down"))
  }

  lemma TargetsWith(ids: set<string>, id: string)
    requires id !in ids
    ensures Targets(ids + {id}) == Targets(ids) + {(id, "up")} + {(id, "down")}
    ensures (id, "up") !in Targets(ids) && (id, "down") !in Targets(ids) + {(id, "up")}
  {
    assert "up"[0] != "down"[0];
  }

  /** The inner loop over "up" and "down" for one pair. */
  method ResolveOne(pairs: map<string, Pair>, dialect: string, ghost done: set<string>,
                    combined: map<(string, string), string>, id: string)
    returns (result: Option<map<(string, string), string>>)
    requires PairsNamed(pairs) && Filled(pairs, Targets(done), dialect, combined) && id in pairs && id !in done
    ensures result.Some? <==> Chosen(pairs[id], dialect, "up").Some? && Chosen(pairs[id], dialect, "down").Some?
    ensures result.Some? ==> Filled(pairs, Targets(done + {id}), dialect, result.value)
  {
    hide Chosen, Target, Filled, PairsNamed, Targets;
    TargetsWith(done, id);
    var up := Chosen(pairs[id], dialect, "up");
    if up.None? {
      return None;
    }
    FillOne(pairs, Targets(done), dialect, combined, (id, "up"));
    var half := combined[Target(pairs, (id, "up")) := up.value];
    var down := Chosen(pairs[id], dialect, "down");
    if down.None? {
      return None;
    }
    FillOne(pairs, Targets(done) + {(id, "up")}, dialect, half, (id, "down"));
    return Some(half[Target(pairs, (id, "down")) := down.value]);
  }

  /** The names of these ids, in order. */
  ghost predicate NamesOf(pairs: map<string, Pair>, done: set<string>, names: seq<string>) {
    && done <= pairs.Keys && Ascending(names)
    && forall n :: n in names <==> exists id :: id in done && n == pairs[id].name
  }

  function InsertName(sorted: seq<string>, name: string): seq<string> {
    if sorted == [] || Less(name, sorted[0]) then [name] + sorted
    else [sorted[0]] + InsertName(sorted[1..], name)
  }

  lemma {:induction false} LessOrder(a: string, b: string, c: string)
    ensures !Less(a, a)
    ensures a != b ==> Less(a, b) || Less(b, a)
    ensures Less(a, b) && Less(b, c) ==> Less(a, c)
  {
    if a != "" {
      LessOrder(a[1..], if b == "" then "" else b[1..], if c == "" then "" else c[1..]);
      if b != "" {
        assert a == [a[0]] + a[1..] && b == [b[0]] + b[1..];
      }
    }
  }

  lemma AscendingCons(name: string, rest: seq<string>)
    requires Ascending(rest) && forall x :: x in rest ==> Less(name, x)
    ensures Ascending([name] + rest)
  {
  }

  /** Inserting a new name in order: what sort.Strings leaves once all names are in. */
  lemma {:induction false} InsertAscends(sorted: seq<string>, name: string)
    requires Ascending(sorted) && name !in sorted
    ensures Ascending(InsertName(sorted, name))
    ensures forall x :: x in InsertName(sorted, name) <==> x in sorted || x == name
    decreases |sorted|
  {
    hide Less;
    if sorted == [] {
    } else if Less(name, sorted[0]) {
      forall x | x in sorted ensures Less(name, x) {
        LessOrder(name, sorted[0], x);
      }
      AscendingCons(name, sorted);
    } else {
      InsertAscends(sorted[1..], name);
      LessOrder(name, sorted[0], name);
      assert sorted == [sorted[0]] + sorted[1..];
      AscendingCons(sorted[0], InsertName(sorted[1..], name));
    }
  }

  lemma NamesWith(pairs: map<string, Pair>, done: set<string>, names: seq<string>, id: string)
    requires PairsNamed(pairs) && NamesOf(pairs, done, names) && id in pairs && id !in done
    ensures NamesOf(pairs, done + {id}, InsertName(names, pairs[id].name))
  {
    hide Ascending, InsertName;
    forall other | other in done ensures pairs[id].name != pairs[other].name {
      DistinctTargets(pairs, id, "up", other, "up");
    }
    hide PairsNamed;
    InsertAscends(names, pairs[id].name);
  }

  lemma NothingFilled(pairs: map<string, Pair>, dialect: string)
    ensures Filled(pairs, Targets(pairs.Keys - pairs.Keys), dialect, map[])
    ensures NamesOf(pairs, pairs.Keys - pairs.Keys, [])
  {
  }

  lemma FilledChosen(pairs: map<string, Pair>, dialect: string, combined: map<(string, string), string>, id: string,
                     d: string)
    requires Filled(pairs, Targets(pairs.Keys), dialect, combined) && id in pairs && Direction(d)
    ensures Chosen(pairs[id], dialect, d).Some? && TargetPath(pairs[id].app, pairs[id].name, d) in combined
    ensures combined[TargetPath(pairs[id].app, pairs[id].name, d)] == Chosen(pairs[id], dialect, d).value
  {
    hide Chosen, TargetPath;
    assert (id, d) in Targets(pairs.Keys);
  }

  /** The second half of CollectForDialect, whatever order the map of pairs is ranged over in. */
  method ResolveAll(pairs: map<string, Pair>, dialect: string) returns (result: Result<Catalog>)
    requires PairsNamed(pairs) && Dialect(dialect)
    ensures result.Ok? <==> forall id, d :: id in pairs && Direction(d) ==> Chosen(pairs[id], dialect, d).Some?
    ensures result.Err? ==> result.error == MissingDirection
    ensures result.Ok? ==> NamesOf(pairs, pairs.Keys, result.value.names)
    ensures result.Ok? ==> Filled(pairs, Targets(pairs.Keys), dialect, result.value.combined)
  {
    hide Chosen, Filled, PairsNamed, Targets, NamesOf;
    var names: seq<string>, combined: map<(string, string), string> := [], map[];
    var todo := pairs.Keys;
    NothingFilled(pairs, dialect);
    while todo != {}
      invariant todo <= pairs.Keys
      invariant Filled(pairs, Targets(pairs.Keys - todo), dialect, combined)
      invariant NamesOf(pairs, pairs.Keys - todo, names)
      decreases todo
    {
      var id :| id in todo;
      ghost var done := pairs.Keys - todo;
      var filled := ResolveOne(pairs, dialect, done, combined, id);
      if filled.None? {
        assert Direction("up") && Direction("down");
        return Err(MissingDirection);
      }
      NamesWith(pairs, done, names, id);
      combined := filled.value;
      names := InsertName(names, pairs[id].name);
      todo := todo - {id};
      assert done + {id} == pairs.Keys - todo;
    }
    assert pairs.Keys - todo == pairs.Keys;
    forall id, d | id in pairs && Direction(d) ensures Chosen(pairs[id], dialect, d).Some? {
      FilledChosen(pairs, dialect, combined, id, d);
    }
    return Ok(Catalog(names, combined));
  }

  // ---------------------------------------------------------------- sorted names

  lemma NotLater(a: seq<string>)
    requires Ascending(a) && a != []
    ensures a[0] !in a[1..]
  {
    LessOrder(a[0], a[0], a[0]);
  }

  /** A strictly ascending list is determined by its elements. */
  lemma {:induction false} AscendingUnique(a: seq<string>, b: seq<string>)
    requires Ascending(a) && Ascending(b) && forall x :: x in a <==> x in b
    ensures a == b
    decreases |a|
  {
    hide Less;
    var x, y := if a == [] then "" else a[0], if b == [] then "" else b[0];
    assert (a != [] ==> x in a) && (b != [] ==> y in b);
    if a != [] && b != [] {
      assert a[0] in b && b[0] in a;
      if a[0] != b[0] {
        LessOrder(a[0], b[0], a[0]);
      }
      NotLater(a);
      NotLater(b);
      forall x ensures x in a[1..] <==> x in b[1..] {
        assert x in a <==> x == a[0] || x in a[1..];
        assert x in b <==> x == b[0] || x in b[1..];
      }
      AscendingUnique(a[1..], b[1..]);
      assert a == [a[0]] + a[1..] && b == [b[0]] + b[1..];
    }
  }

  // ---------------------------------------------------------------- the whole collection

  lemma OneFilePerId(pairs: map<string, Pair>, files: multiset<File>)
    requires Holds(pairs, files)
    ensures forall f :: f in files && Named(f) ==>
              Id(f) in pairs && pairs[Id(f)].name == FullName(f) && pairs[Id(f)].app == f.app
    ensures forall id :: id in pairs ==> exists f :: f in files && Named(f) && Id(f) == id
  {
    hide Named, IsSql, Id, FullName, Slot;
    forall f | f in files && Named(f)
      ensures Id(f) in pairs && pairs[Id(f)].name == FullName(f) && pairs[Id(f)].app == f.app
    {
      assert Recorded(pairs, f);
    }
  }

  lemma FilledProvides(pairs: map<string, Pair>, files: multiset<File>, dialect: string,
                       combined: map<(string, string), string>, f: File, d: string)
    requires Holds(pairs, files) && Consistent(files) && Dialect(dialect)
    requires Filled(pairs, Targets(pairs.Keys), dialect, combined)
    requires f in files && Named(f) && Direction(d)
    ensures Provides(files, dialect, combined, f, d)
  {
    OneFilePerId(pairs, files);
    FilledChosen(pairs, dialect, combined, Id(f), d);
    ChosenResolves(pairs, files, Id(f), dialect, d);
    hide Named, IsSql, Id, FullName, Slot, Chosen, TargetPath, Consistent, Resolves, Holds, Filled, Targets;
  }

  lemma NamesOfFiles(pairs: map<string, Pair>, files: multiset<File>, names: seq<string>)
    requires Holds(pairs, files)
    requires forall n :: n in names <==> exists id :: id in pairs && n == pairs[id].name
    ensures forall n :: n in names <==> exists f :: f in files && Named(f) && n == FullName(f)
  {
    OneFilePerId(pairs, files);
    hide Named, IsSql, Id, FullName, Slot, Holds;
    forall n | n in names ensures exists f :: f in files && Named(f) && n == FullName(f) {
      var id :| id in pairs && n == pairs[id].name;
      var f :| f in files && Named(f) && Id(f) == id;
    }
  }

  lemma TargetsOfFiles(pairs: map<string, Pair>, files: multiset<File>, dialect: string,
                       combined: map<(string, string), string>)
    requires Holds(pairs, files) && Filled(pairs, Targets(pairs.Keys), dialect, combined)
    ensures forall p :: p in combined ==>
              exists f, d :: f in files && Named(f) && Direction(d) && p == TargetPath(f.app, FullName(f), d)
  {
    OneFilePerId(pairs, files);
    hide Named, IsSql, Id, FullName, Slot, Holds, Chosen, TargetPath;
    forall p | p in combined
      ensures exists f, d :: f in files && Named(f) && Direction(d) && p == TargetPath(f.app, FullName(f), d)
    {
      var t :| t in Targets(pairs.Keys) && t.0 in pairs && p == Target(pairs, t);
      var f :| f in files && Named(f) && Id(f) == t.0;
      assert Direction(t.1) && p == TargetPath(f.app, FullName(f), t.1);
    }
  }

  /** What the pairs resolve to is the catalog of the files they hold. */
  lemma FilledIsCatalog(pairs: map<string, Pair>, files: multiset<File>, dialect: string, catalog: Catalog)
    requires Holds(pairs, files) && Consistent(files) && Dialect(dialect)
    requires NamesOf(pairs, pairs.Keys, catalog.names)
    requires Filled(pairs, Targets(pairs.Keys), dialect, catalog.combined)
    ensures IsCatalog(files, dialect, catalog)
  {
    NamesOfFiles(pairs, files, catalog.names);
    TargetsOfFiles(pairs, files, dialect, catalog.combined);
    forall f, d | f in files && Named(f) && Direction(d) ensures Provides(files, dialect, catalog.combined, f, d) {
      FilledProvides(pairs, files, dialect, catalog.combined, f, d);
    }
    hide Named, IsSql, Id, FullName, Slot, TargetPath, Consistent, Provides, Holds, Ascending, Filled, Targets;
  }

  lemma CompleteIsChosen(pairs: map<string, Pair>, files: multiset<File>, dialect: string)
    requires Holds(pairs, files) && Consistent(files) && Dialect(dialect)
    ensures Complete(files, dialect) <==>
            forall id, d :: id in pairs && Direction(d) ==> Chosen(pairs[id], dialect, d).Some?
  {
    hide Named, IsSql, Id, FullName, Slot, Chosen, Consistent, Resolves;
    forall id, d | id in pairs && Direction(d)
      ensures Chosen(pairs[id], dialect, d).Some? <==> exists g :: Resolves(files, g, id, dialect, d)
    {
      ChosenResolves(pairs, files, id, dialect, d);
    }
    forall f | f in files && Named(f) ensures Id(f) in pairs {
      assert Recorded(pairs, f);
    }
    if Complete(files, dialect) {
      forall id, d | id in pairs && Direction(d) ensures Chosen(pairs[id], dialect, d).Some? {
        var f :| f in files && Named(f) && Id(f) == id;
      }
    }
  }

  /** What Bun's own discovery makes of the combined files; it may refuse them. */
  type Discover = map<(string, string), string> -> bool

  /** The files stand for a catalog that discovery takes. */
  ghost predicate Discovered(files: multiset<File>, dialect: string, discover: Discover) {
    exists catalog :: IsCatalog(files, dialect, catalog) && discover(catalog.combined)
  }

  /** An error is never reported without its cause. */
  ghost predicate Explains(configured: Option<seq<Provider>>, dialect: string, discover: Discover, error: Error) {
    match error
    case NilProject => configured.None?
    case UnsupportedDialect => !Dialect(dialect)
    case NilProvider | BrokenWalk => configured.Some? && exists p :: p in configured.value && FailsWith(p, error)
    case MissingDirection =>
      && configured.Some? && NoClash(AllFiles(configured.value))
      && !Complete(multiset(AllFiles(configured.value)), dialect)
    case NotDiscovered =>
      && configured.Some? && Acceptable(multiset(AllFiles(configured.value)), dialect)
      && !Discovered(multiset(AllFiles(configured.value)), dialect, discover)
    case _ => configured.Some? && Shows(multiset(AllFiles(configured.value)), error)
  }

  /** What collecting asks of its input, in which no order appears. */
  ghost predicate Collectable(configured: Option<seq<Provider>>, dialect: string, discover: Discover) {
    && configured.Some? && Dialect(dialect) && NoneFail(configured.value)
    && Acceptable(multiset(AllFiles(configured.value)), dialect)
    && Discovered(multiset(AllFiles(configured.value)), dialect, discover)
  }

  lemma SameNames(files: multiset<File>, dialect: string, a: Catalog, b: Catalog)
    requires IsCatalog(files, dialect, a) && IsCatalog(files, dialect, b)
    ensures Ascending(a.names) && Ascending(b.names) && forall n :: n in a.names <==> n in b.names
  {
    hide Named, IsSql, Id, FullName, Slot, TargetPath, Resolves, Ascending;
  }

  /** At most one file resolves a direction. */
  lemma ResolvesUnique(files: multiset<File>, g: File, h: File, id: string, dialect: string, d: string)
    requires Consistent(files) && Resolves(files, g, id, dialect, d) && Resolves(files, h, id, dialect, d)
    ensures g == h
  {
    hide Named, IsSql, Id, FullName, Slot;
    assert Clash(g, h);
  }

  lemma SameAt(files: multiset<File>, dialect: string, a: Catalog, b: Catalog, p: (string, string))
    requires Consistent(files) && IsCatalog(files, dialect, a) && IsCatalog(files, dialect, b) && p in a.combined
    ensures p in b.combined && a.combined[p] == b.combined[p]
  {
    hide Named, IsSql, Id, FullName, Slot, TargetPath, Resolves, Ascending, Consistent;
    var f, d :| f in files && Named(f) && Direction(d) && p == TargetPath(f.app, FullName(f), d);
    assert Provides(files, dialect, a.combined, f, d) && Provides(files, dialect, b.combined, f, d);
    var g :| Resolves(files, g, Id(f), dialect, d) && a.combined[p] == g.content;
    var h :| Resolves(files, h, Id(f), dialect, d) && b.combined[p] == h.content;
    ResolvesUnique(files, g, h, Id(f), dialect, d);
  }

  lemma SameCombined(files: multiset<File>, dialect: string, a: Catalog, b: Catalog)
    requires Consistent(files) && IsCatalog(files, dialect, a) && IsCatalog(files, dialect, b)
    ensures a.combined == b.combined
  {
    hide Named, IsSql, Id, FullName, Slot, TargetPath, Resolves, Ascending, Consistent, Provides;
    forall p | p in a.combined ensures p in b.combined && a.combined[p] == b.combined[p] {
      SameAt(files, dialect, a, b, p);
    }
    forall p | p in b.combined ensures p in a.combined {
      SameAt(files, dialect, b, a, p);
    }
  }

  /** Names() is strictly ascending, and two successful collections of the same files agree in everything. */
  lemma CatalogUnique(files: multiset<File>, dialect: string, a: Catalog, b: Catalog)
    requires Acceptable(files, dialect) && IsCatalog(files, dialect, a) && IsCatalog(files, dialect, b)
    ensures a == b
  {
    hide Named, IsSql, Id, FullName, Slot, TargetPath, Consistent, Ascending, Complete, IsCatalog;
    assert forall n :: n in a.names <==> n in b.names by {
      SameNames(files, dialect, a, b);
    }
    AscendingUnique(a.names, b.names) by {
      SameNames(files, dialect, a, b);
    }
    SameCombined(files, dialect, a, b);
  }

  // ---------------------------------------------------------------- the same in terms of file names alone

  /** The file's name is of the pattern, with this identity, direction and dialect. */
  ghost predicate Is(f: File, identity: string, direction: string, variant: string) {
    exists name: string :: Parse(f.base) == Some(FileName(identity, name, variant, direction))
  }

  lemma IsMeans(f: File, identity: string, direction: string, variant: string)
    ensures Is(f, identity, direction, variant) <==>
            Named(f) && Id(f) == identity && Slot(f) == (variant, direction)
  {
    ParsedIsSql(f.base);
    if Named(f) && Id(f) == identity && Slot(f) == (variant, direction) {
      assert Parse(f.base) == Some(FileName(identity, Parse(f.base).value.name, variant, direction));
    }
  }

  lemma NamedMeans(f: File)
    ensures Named(f) <==> Parse(f.base).Some?
  {
    ParsedIsSql(f.base);
  }

  /** Two files of one identity bear one name in one app, and differ in dialect or direction if they are two. */
  ghost predicate Agree(files: multiset<File>, f: File, g: File)
    requires Parse(f.base).Some? && Parse(g.base).Some?
  {
    var a, b := Parse(f.base).value, Parse(g.base).value;
    a.identity == b.identity ==>
      && a.name == b.name && f.app == g.app
      && (a.variant == b.variant && a.direction == b.direction ==> f == g && files[f] == 1)
  }

  lemma AgreeMeans(files: multiset<File>, f: File, g: File)
    requires Named(f) && Named(g)
    ensures Agree(files, f, g) <==> (Clash(f, g) ==> f == g && files[f] == 1)
  {
    hide Parse, IsSql;
    var a, b := Parse(f.base).value, Parse(g.base).value;
    if a.identity == b.identity {
      assert (a.identity + "_" + a.name)[|a.identity| + 1..] == a.name;
      assert (b.identity + "_" + b.name)[|a.identity| + 1..] == b.name;
    }
  }

  lemma ConsistentMeans(files: multiset<File>)
    ensures Consistent(files) <==>
            && (forall f :: f in files && HasSuffix(f.base, ".sql") ==> f.readable && Parse(f.base).Some?)
            && (forall f, g :: f in files && g in files && Parse(f.base).Some? && Parse(g.base).Some? ==>
                  Agree(files, f, g))
  {
    forall f ensures Named(f) <==> Parse(f.base).Some? {
      NamedMeans(f);
    }
    forall f, g | Named(f) && Named(g)
      ensures Agree(files, f, g) <==> (Clash(f, g) ==> f == g && files[f] == 1)
    {
      AgreeMeans(files, f, g);
    }
    assert forall f, g :: Clash(f, g) ==> Named(f) && Named(g);
    hide Parse, Named, Clash, Agree;
  }

  /** One direction of an identity can be had: from a file of the dialect, or from one of no dialect. */
  ghost predicate Available(files: multiset<File>, identity: string, direction: string, dialect: string) {
    exists g :: g in files && (Is(g, identity, direction, dialect) || Is(g, identity, direction, ""))
  }

  lemma AvailableMeans(files: multiset<File>, identity: string, direction: string, dialect: string)
    ensures Available(files, identity, direction, dialect) <==>
            exists g :: Resolves(files, g, identity, dialect, direction)
  {
    forall g
      ensures g in files && Is(g, identity, direction, dialect) <==> Fills(files, g, identity, (dialect, direction))
      ensures g in files && Is(g, identity, direction, "") <==> Fills(files, g, identity, ("", direction))
    {
      IsMeans(g, identity, direction, dialect);
      IsMeans(g, identity, direction, "");
    }
    hide Is, Fills;
    if g :| Fills(files, g, identity, (dialect, direction)) {
      assert Resolves(files, g, identity, dialect, direction);
      assert Is(g, identity, direction, dialect);
    } else if g :| Fills(files, g, identity, ("", direction)) {
      assert Resolves(files, g, identity, dialect, direction);
      assert Is(g, identity, direction, "");
    }
  }

  /** Both directions of a file's identity can be had. */
  ghost predicate BothAvailable(files: multiset<File>, f: File, dialect: string)
    requires Parse(f.base).Some?
  {
    && Available(files, Parse(f.base).value.identity, "up", dialect)
    && Available(files, Parse(f.base).value.identity, "down", dialect)
  }

  lemma BothAvailableMeans(files: multiset<File>, f: File, dialect: string)
    requires Named(f)
    ensures BothAvailable(files, f, dialect) <==>
            forall d :: Direction(d) ==> exists g :: Resolves(files, g, Id(f), dialect, d)
  {
    AvailableMeans(files, Id(f), "up", dialect);
    AvailableMeans(files, Id(f), "down", dialect);
    assert Id(f) == Parse(f.base).value.identity && Direction("up") && Direction("down");
    hide Parse, Id, Resolves, Available, Named, IsSql;
  }

  lemma CompleteMeans(files: multiset<File>, dialect: string)
    ensures Complete(files, dialect) <==>
            forall f :: f in files && Parse(f.base).Some? ==> BothAvailable(files, f, dialect)
  {
    hide Named, Resolves, Available, Id, Direction, BothAvailable, Parse;
    forall f ensures Named(f) <==> Parse(f.base).Some? {
      NamedMeans(f);
    }
    if Complete(files, dialect) {
      forall f | f in files && Parse(f.base).Some? ensures BothAvailable(files, f, dialect) {
        BothAvailableMeans(files, f, dialect);
      }
    } else {
      var f, d :| f in files && Named(f) && Direction(d) && forall g :: !Resolves(files, g, Id(f), dialect, d);
      BothAvailableMeans(files, f, dialect);
    }
  }

  /** What goes into the combined files, and where. */
  lemma ProvidedExactly(files: multiset<File>, dialect: string, catalog: Catalog, f: File, n: FileName)
    requires Consistent(files) && IsCatalog(files, dialect, catalog)
    requires f in files && Parse(f.base) == Some(n)
    ensures var target := (f.app, n.identity + "_" + n.name + ".tx." + n.direction + ".sql");
            && target in catalog.combined
            && (n.variant == dialect ==> catalog.combined[target] == f.content)
            && (n.variant == "" && (forall g :: g in files ==> !Is(g, n.identity, n.direction, dialect)) ==>
                  catalog.combined[target] == f.content)
  {
    ParsedIsSql(f.base);
    PatternExactly(f.base, n);
    forall g ensures Is(g, n.identity, n.direction, dialect) <==>
                     Named(g) && Id(g) == n.identity && Slot(g) == (dialect, n.direction)
    {
      IsMeans(g, n.identity, n.direction, dialect);
    }
    assert Named(f) && Id(f) == n.identity && Slot(f) == (n.variant, n.direction);
    assert FullName(f) == n.identity + "_" + n.name;
    assert Direction(n.direction);
    hide Parse, Named, IsSql, Id, FullName, Slot, Consistent, Is;
    assert Provides(files, dialect, catalog.combined, f, n.direction);
    var target := TargetPath(f.app, FullName(f), n.direction);
    var g :| Resolves(files, g, Id(f), dialect, n.direction) && catalog.combined[target] == g.content;
    if Resolves(files, f, Id(f), dialect, n.direction) {
      ResolvesUnique(files, f, g, Id(f), dialect, n.direction);
    }
  }

  /** The identity and the name of a file, without its dialect and direction. */
  ghost predicate Titled(f: File, title: string) {
    Parse(f.base).Some? && title == Parse(f.base).value.identity + "_" + Parse(f.base).value.name
  }

  lemma TitledMeans(f: File, title: string)
    ensures Titled(f, title) <==> Named(f) && title == FullName(f)
  {
    ParsedIsSql(f.base);
  }

  /** Nothing else is in the catalog. */
  lemma OnlyProvided(files: multiset<File>, dialect: string, catalog: Catalog)
    requires IsCatalog(files, dialect, catalog)
    ensures forall name :: name in catalog.names <==> exists f :: f in files && Titled(f, name)
    ensures forall p :: p in catalog.combined ==>
              exists f, title, d :: f in files && Titled(f, title) && d in ["up", "down"] &&
                                    p == (f.app, title + ".tx." + d + ".sql")
  {
    forall f, title ensures Titled(f, title) <==> Named(f) && title == FullName(f) {
      TitledMeans(f, title);
    }
    hide Parse, Named, FullName, Ascending, Provides, Titled;
    forall name ensures name in catalog.names <==> exists f :: f in files && Titled(f, name) {
      if f :| f in files && Named(f) && name == FullName(f) {
        assert Titled(f, name);
      }
    }
    forall p | p in catalog.combined
      ensures exists f, title, d :: f in files && Titled(f, title) && d in ["up", "down"] &&
                                    p == (f.app, title + ".tx." + d + ".sql")
    {
      var f, d :| f in files && Named(f) && Direction(d) && p == TargetPath(f.app, FullName(f), d);
      assert Titled(f, FullName(f)) && d in ["up", "down"];
    }
  }

  /** The files are those of the walks. */
  lemma {:induction false} WalkedFiles(providers: seq<Provider>, f: File)
    ensures f in AllFiles(providers) <==> exists p :: p in providers && p.Walk? && f in p.files
  {
    if providers != [] {
      var before, last := providers[..|providers| - 1], providers[|providers| - 1];
      WalkedFiles(before, f);
      assert providers == before + [last];
    }
  }

  /** What collecting asks, of file names and contents alone; only discovery sees the catalog itself. */
  lemma CollectableMeans(configured: Option<seq<Provider>>, dialect: string, discover: Discover)
    ensures Collectable(configured, dialect, discover) <==>
            && configured.Some? && (dialect == "postgres" || dialect == "sqlite")
            && (forall p :: p in configured.value ==> p != NilFilesystem && !(p.Walk? && p.broken))
            && var files := multiset(AllFiles(configured.value));
            && (forall f :: f in files && HasSuffix(f.base, ".sql") ==> f.readable && Parse(f.base).Some?)
            && (forall f, g :: f in files && g in files && Parse(f.base).Some? && Parse(g.base).Some? ==>
                  Agree(files, f, g))
            && (forall f :: f in files && Parse(f.base).Some? ==> BothAvailable(files, f, dialect))
            && exists catalog :: IsCatalog(files, dialect, catalog) && discover(catalog.combined)
  {
    if configured.Some? {
      var files := multiset(AllFiles(configured.value));
      ConsistentMeans(files);
      CompleteMeans(files, dialect);
      hide AllFiles, Consistent, Complete, IsCatalog, Agree, BothAvailable, Parse, HasSuffix;
    }
  }

  /** Names compare unit by unit, a proper prefix coming first, as sort.Strings has it for these characters. */
  lemma {:induction false} LessMeans(a: string, b: string)
    ensures Less(a, b) <==>
            exists i :: 0 <= i <= |a| && i < |b| && a[..i] == b[..i] && (i < |a| ==> a[i] < b[i])
  {
    if a != "" && b != "" && a[0] == b[0] {
      LessMeans(a[1..], b[1..]);
      if i :| 0 <= i <= |a[1..]| && i < |b[1..]| && a[1..][..i] == b[1..][..i] &&
              (i < |a[1..]| ==> a[1..][i] < b[1..][i]) {
        assert a[..i + 1] == [a[0]] + a[1..][..i] && b[..i + 1] == [b[0]] + b[1..][..i];
        assert 0 <= i + 1 <= |a| && i + 1 < |b| && a[..i + 1] == b[..i + 1] && (i + 1 < |a| ==> a[i + 1] < b[i + 1]);
      }
      if i :| 0 <= i <= |a| && i < |b| && a[..i] == b[..i] && (i < |a| ==> a[i] < b[i]) {
        assert i > 0;
        assert a[1..][..i - 1] == a[..i][1..] && b[1..][..i - 1] == b[..i][1..];
      }
    } else if b != "" {
      assert a[..0] == b[..0];
      assert Less(a, b) ==> 0 < |b| && (0 < |a| ==> a[0] < b[0]);
    }
  }

  /** There is only one catalog for discovery to look at. */
  lemma DiscoveredExactly(files: multiset<File>, dialect: string, discover: Discover, catalog: Catalog)
    requires Acceptable(files, dialect) && IsCatalog(files, dialect, catalog)
    ensures Discovered(files, dialect, discover) <==> discover(catalog.combined)
  {
    hide Acceptable, IsCatalog;
    if other :| IsCatalog(files, dialect, other) && discover(other.combined) {
      CatalogUnique(files, dialect, catalog, other);
    }
  }

  /** CollectForDialect succeeds exactly on collectable input, and then returns the catalog the files stand for. */
  method CollectForDialect(configured: Option<seq<Provider>>, dialect: string, discover: Discover)
    returns (result: Result<Catalog>)
    ensures result.Ok? <==> Collectable(configured, dialect, discover)
    ensures result.Ok? ==> IsCatalog(multiset(AllFiles(configured.value)), dialect, result.value)
    ensures result.Err? ==> Explains(configured, dialect, discover, result.error)
  {
    hide AllFiles, Consistent, Complete, Holds, IsCatalog, Filled, PairsNamed, NamesOf, Shows, NoneFail, Discovered;
    if configured.None? {
      return Err(NilProject);
    }
    if dialect != "postgres" && dialect != "sqlite" {
      return Err(UnsupportedDialect);
    }
    var gathered := Gather(configured.value);
    if gathered.Err? {
      return Err(gathered.error);
    }
    ghost var files := multiset(AllFiles(configured.value));
    HoldsNamed(gathered.value, files);
    CompleteIsChosen(gathered.value, files, dialect);
    result := ResolveAll(gathered.value, dialect);
    if result.Err? {
      return;
    }
    FilledIsCatalog(gathered.value, files, dialect, result.value);
    DiscoveredExactly(files, dialect, discover, result.value);
    if !discover(result.value.combined) {
      return Err(NotDiscovered);
    }
  }
}
