/**
  * The `add` command (src/commands/add.ts): resolve a version for every
  * install target, then write the resulting entries into the `dependencies`
  * (or `devDependencies`) object of every selected package except the one
  * being installed, and finally start `yarn` with the workspace root as its `cwd`.
  */
module AddCommand {

  import opened Wrappers
  import opened Json
  import opened Strings
  import opened Packages
  import opened Logger
  import opened Messages
  import opened Manifests
  import MonoRepo

  // ---------------------------------------------------------------------
  // The partition of the install targets into npm and local packages
  // ---------------------------------------------------------------------

  /** `packages.find(p => p.name === getPackageName(n))` finds a package. */
  predicate IsLocalPackageName(packages: seq<Package>, n: string)
  {
    FindByName(packages, GetPackageName(n)).Some?
  }

  /**
    * `localInstallPackageNames`: the install targets, as typed (a version
    * included), whose package name is the name of a local package.
    */
  function LocalInstallNames(packages: seq<Package>, names: seq<string>): (r: seq<string>)
    ensures forall n :: n in r <==> n in names && IsLocalPackageName(packages, n)
    decreases |names|
  {
    if |names| == 0 then []
    else (if IsLocalPackageName(packages, names[0]) then [names[0]] else []) + LocalInstallNames(packages, names[1..])
  }

  /** `localInstallPackageNames.includes(getPackageName(n))`. */
  predicate InLocalList(localNames: seq<string>, n: string)
  {
    GetPackageName(n) in localNames
  }

  /** The elements of `xs` on which `flag` is `side`, in their original order. */
  function Pick(xs: seq<string>, flag: string -> bool, side: bool): (r: seq<string>)
    ensures forall x :: x in r <==> x in xs && flag(x) == side
    decreases |xs|
  {
    if |xs| == 0 then []
    else (if flag(xs[0]) == side then [xs[0]] else []) + Pick(xs[1..], flag, side)
  }

  /** The two sides of a pick together are the whole sequence, counted with repetition. */
  lemma {:induction false} PickCover(xs: seq<string>, flag: string -> bool)
    ensures multiset(Pick(xs, flag, false)) + multiset(Pick(xs, flag, true)) == multiset(xs)
    decreases |xs|
  {
    if |xs| > 0 {
      var head, rest := xs[0], xs[1..];
      PickCover(rest, flag);
      assert xs == [head] + rest;
      var no, yes := Pick(rest, flag, false), Pick(rest, flag, true);
      if flag(head) {
        assert Pick(xs, flag, false) == no;
        assert Pick(xs, flag, true) == [head] + yes;
        assert multiset([head] + yes) == multiset{head} + multiset(yes);
      } else {
        assert Pick(xs, flag, false) == [head] + no;
        assert Pick(xs, flag, true) == yes;
        assert multiset([head] + no) == multiset{head} + multiset(no);
      }
      assert multiset(xs) == multiset{head} + multiset(rest);
    }
  }

  /** Whether a target's package name is on the local list. */
  function LocalFlag(localNames: seq<string>): string -> bool
  {
    n => InLocalList(localNames, n)
  }

  /** The targets whose membership in the local list is `local`, in their original order. */
  function Side(localNames: seq<string>, names: seq<string>, local: bool): (r: seq<string>)
    ensures forall n :: n in r <==> n in names && InLocalList(localNames, n) == local
  {
    Pick(names, LocalFlag(localNames), local)
  }

  /** The targets installed from npm. */
  function NpmTargets(packages: seq<Package>, names: seq<string>): seq<string>
  {
    Side(LocalInstallNames(packages, names), names, false)
  }

  /** The targets linked from the workspace. */
  function LocalTargets(packages: seq<Package>, names: seq<string>): seq<string>
  {
    Side(LocalInstallNames(packages, names), names, true)
  }

  /** Every target lands on exactly one side: the two sides together are the targets, counted with repetition. */
  lemma SidesPartition(localNames: seq<string>, names: seq<string>)
    ensures |Side(localNames, names, false)| + |Side(localNames, names, true)| == |names|
    ensures multiset(Side(localNames, names, false)) + multiset(Side(localNames, names, true)) == multiset(names)
  {
    PickCover(names, LocalFlag(localNames));
    assert |multiset(Side(localNames, names, false)) + multiset(Side(localNames, names, true))| == |multiset(names)|;
  }

  /** A target on the local side always carries the name of a local package. */
  lemma LocalTargetsAreLocal(packages: seq<Package>, names: seq<string>, n: string)
    requires n in LocalTargets(packages, names)
    ensures FindByName(packages, GetPackageName(n)).Some?
  {
    var m := GetPackageName(n);
    assert m in LocalInstallNames(packages, names);
    NameIdempotent(n);
  }

  /**
    * The local list holds the targets as typed, so a target that carries a
    * version is linked locally only when its bare name is a target too;
    * otherwise it is installed from npm even when it names a local package.
    */
  lemma VersionedTargetGoesToNpm(packages: seq<Package>, names: seq<string>, n: string)
    requires n in names
    requires GetPackageName(n) !in names
    ensures n in NpmTargets(packages, names) && n !in LocalTargets(packages, names)
  {
  }

  // ---------------------------------------------------------------------
  // Install entries
  // ---------------------------------------------------------------------

  /** One package to install: its name and the version string written for it. */
  datatype InstallEntry = InstallEntry(name: string, version: string)

  /** The entry for one target, from `getPackageVersion`. */
  function EntryOf(n: string, packages: seq<Package>, registry: string -> Option<string>): (r: Result<InstallEntry, VersionError>)
    ensures r.Ok? <==> GetPackageVersion(n, packages, registry).Ok?
    ensures r.Ok? ==> r.value.name == GetPackageName(n)
    ensures r.Ok? ==> var spec := GetPackageVersion(n, packages, registry).value;
                      r.value.version == spec.modifier + spec.version
    ensures r.Err? ==> GetPackageVersion(n, packages, registry) == Err(r.error)
  {
    match GetPackageVersion(n, packages, registry)
    case Ok(spec) => Ok(InstallEntry(GetPackageName(n), spec.modifier + spec.version))
    case Err(e) => Err(e)
  }

  /** The entry of each target under the given workspace packages and registry. */
  function EntryFor(packages: seq<Package>, registry: string -> Option<string>): string -> Result<InstallEntry, VersionError>
  {
    n => EntryOf(n, packages, registry)
  }

  /**
    * The entries of a list of targets, each from `entry`; `Promise.all`
    * rejects, here with the first failure in list order.
    */
  function Entries(targets: seq<string>, entry: string -> Result<InstallEntry, VersionError>): Result<seq<InstallEntry>, VersionError>
    decreases |targets|
  {
    if |targets| == 0 then Ok([])
    else
      match entry(targets[0])
      case Err(e) => Err(e)
      case Ok(first) =>
        match Entries(targets[1..], entry)
        case Err(e) => Err(e)
        case Ok(rest) => Ok([first] + rest)
  }

  /**
    * The entries succeed exactly when every target's entry does; then
    * entry k is target k's; otherwise the error is that of some target.
    */
  lemma {:induction false} EntriesEffect(targets: seq<string>, entry: string -> Result<InstallEntry, VersionError>)
    ensures var r := Entries(targets, entry);
            && (r.Ok? <==> forall k :: 0 <= k < |targets| ==> entry(targets[k]).Ok?)
            && (r.Ok? ==> |r.value| == |targets|)
            && (r.Ok? ==> forall k :: 0 <= k < |targets| ==> r.value[k] == entry(targets[k]).value)
            && (r.Err? ==> exists k :: 0 <= k < |targets| && entry(targets[k]) == Err(r.error))
    decreases |targets|
  {
    if |targets| > 0 {
      var tail := targets[1..];
      EntriesEffect(tail, entry);
      assert forall k :: 0 <= k < |tail| ==> tail[k] == targets[k + 1];
      var r := Entries(targets, entry);
      if entry(targets[0]).Ok? {
        var rest := Entries(tail, entry);
        if rest.Err? {
          var k :| 0 <= k < |tail| && entry(tail[k]) == Err(rest.error);
          assert entry(targets[k + 1]) == Err(r.error);
        } else {
          forall k | 0 <= k < |targets| ensures entry(targets[k]).Ok? {
            if k > 0 { assert targets[k] == tail[k - 1]; }
          }
        }
      }
    }
  }

  /** `installPackages`: the npm entries, then the local ones. */
  function InstallEntries(packages: seq<Package>, names: seq<string>, registry: string -> Option<string>): Result<seq<InstallEntry>, VersionError>
  {
    Entries(NpmTargets(packages, names) + LocalTargets(packages, names), EntryFor(packages, registry))
  }

  /** Targets linked from the workspace always resolve, without consulting the registry. */
  lemma LocalTargetsResolve(packages: seq<Package>, names: seq<string>, registry: string -> Option<string>, n: string)
    requires n in LocalTargets(packages, names)
    ensures GetPackageVersion(n, packages, registry).Ok?
  {
    LocalTargetsAreLocal(packages, names, n);
  }

  /** On success entry k is named after target k. */
  lemma EntriesNames(targets: seq<string>, packages: seq<Package>, registry: string -> Option<string>)
    requires Entries(targets, EntryFor(packages, registry)).Ok?
    ensures var r := Entries(targets, EntryFor(packages, registry)).value;
            |r| == |targets| && forall k :: 0 <= k < |targets| ==> r[k].name == GetPackageName(targets[k])
  {
    EntriesEffect(targets, EntryFor(packages, registry));
  }

  /** A failure is the version lookup failure of one of the targets. */
  lemma EntriesFailure(targets: seq<string>, packages: seq<Package>, registry: string -> Option<string>)
    requires Entries(targets, EntryFor(packages, registry)).Err?
    ensures exists k :: 0 <= k < |targets| &&
              GetPackageVersion(targets[k], packages, registry) == Err(Entries(targets, EntryFor(packages, registry)).error)
  {
    EntriesEffect(targets, EntryFor(packages, registry));
  }

  /** The outcome of two lists of entries in a row: the first failure, else both lists. */
  function Concatenated(a: Result<seq<InstallEntry>, VersionError>, b: Result<seq<InstallEntry>, VersionError>): Result<seq<InstallEntry>, VersionError>
  {
    match a
    case Err(e) => Err(e)
    case Ok(first) =>
      match b
      case Err(e) => Err(e)
      case Ok(second) => Ok(first + second)
  }

  /** The entries of a concatenation are those of its parts in a row, failing at the first failure. */
  lemma {:induction false} EntriesAppend(xs: seq<string>, ys: seq<string>, entry: string -> Result<InstallEntry, VersionError>)
    ensures Entries(xs + ys, entry) == Concatenated(Entries(xs, entry), Entries(ys, entry))
    decreases |xs|
  {
    if |xs| == 0 {
      assert xs + ys == ys;
      var b := Entries(ys, entry);
      if b.Ok? { assert [] + b.value == b.value; }
    } else {
      assert (xs + ys)[0] == xs[0];
      assert (xs + ys)[1..] == xs[1..] + ys;
      EntriesAppend(xs[1..], ys, entry);
      var a, b := Entries(xs[1..], entry), Entries(ys, entry);
      if a.Ok? && b.Ok? {
        var first := entry(xs[0]);
        if first.Ok? { assert [first.value] + (a.value + b.value) == ([first.value] + a.value) + b.value; }
      }
    }
  }

  /**
    * On success there is one entry per target: the npm entries, one per npm
    * target, then the local ones, one per local target (each named after
    * its target, as `EntriesNames` states).
    */
  lemma InstallEntriesOrder(packages: seq<Package>, names: seq<string>, registry: string -> Option<string>)
    requires InstallEntries(packages, names, registry).Ok?
    ensures var r := InstallEntries(packages, names, registry).value;
            var npm, local := NpmTargets(packages, names), LocalTargets(packages, names);
            var entry := EntryFor(packages, registry);
            && Entries(npm, entry).Ok? && Entries(local, entry).Ok?
            && r == Entries(npm, entry).value + Entries(local, entry).value
            && |Entries(npm, entry).value| == |npm|
            && |Entries(local, entry).value| == |local|
            && |r| == |names|
  {
    var npm, local := NpmTargets(packages, names), LocalTargets(packages, names);
    var entry := EntryFor(packages, registry);
    SidesPartition(LocalInstallNames(packages, names), names);
    EntriesAppend(npm, local, entry);
    EntriesEffect(npm, entry);
    EntriesEffect(local, entry);
  }

  /** A failure always comes from an npm target whose version the registry does not know. */
  lemma InstallEntriesFailure(packages: seq<Package>, names: seq<string>, registry: string -> Option<string>)
    requires InstallEntries(packages, names, registry).Err?
    ensures exists n :: n in NpmTargets(packages, names) &&
              GetPackageVersion(n, packages, registry) == Err(InstallEntries(packages, names, registry).error)
  {
    var npm, local := NpmTargets(packages, names), LocalTargets(packages, names);
    var all := npm + local;
    EntriesFailure(all, packages, registry);
    var e := InstallEntries(packages, names, registry).error;
    var k :| 0 <= k < |all| && GetPackageVersion(all[k], packages, registry) == Err(e);
    if k >= |npm| {
      assert all[k] in local;
      LocalTargetsResolve(packages, names, registry, all[k]);
      assert false;
    }
    assert all[k] in npm;
  }

  // ---------------------------------------------------------------------
  // Writing the entries into one manifest
  // ---------------------------------------------------------------------

  /** `options.dev ? "devDependencies" : "dependencies"`. */
  function DependencyKey(dev: bool): (key: string)
    ensures dev ==> key == "devDependencies"
    ensures !dev ==> key == "dependencies"
  {
    if dev then "devDependencies" else "dependencies"
  }

  /** `installPackages.filter(p => p.name !== pkg.name)`. */
  function EntriesFor(install: seq<InstallEntry>, target: string): (r: seq<InstallEntry>)
    ensures forall e :: e in r <==> e in install && e.name != target
    ensures |r| <= |install|
    decreases |install|
  {
    if |install| == 0 then []
    else (if install[0].name != target then [install[0]] else []) + EntriesFor(install[1..], target)
  }

  /** The inner loop: each entry sets its name in turn, so a later entry overwrites an earlier one. */
  function SetEntries(deps: map<string, Json>, entries: seq<InstallEntry>): map<string, Json>
    decreases |entries|
  {
    if |entries| == 0 then deps
    else
      var last := entries[|entries| - 1];
      SetEntries(deps, entries[..|entries| - 1])[last.name := JString(last.version)]
  }

  /** The version of the last entry with a given name. */
  function LastVersion(entries: seq<InstallEntry>, name: string): (r: Option<string>)
    ensures r.None? <==> forall e :: e in entries ==> e.name != name
    ensures r.Some? ==> InstallEntry(name, r.value) in entries
    ensures r.Some? ==> exists k :: 0 <= k < |entries| && entries[k] == InstallEntry(name, r.value) &&
                                   forall j :: k < j < |entries| ==> entries[j].name != name
    decreases |entries|
  {
    if |entries| == 0 then None
    else
      var n := |entries|;
      var last := entries[n - 1];
      assert entries == entries[..n - 1] + [last];
      if last.name == name then
        assert entries[n - 1] == InstallEntry(name, last.version);
        Some(last.version)
      else
        var prefix := entries[..n - 1];
        var r := LastVersion(prefix, name);
        if r.Some? then
          var k :| 0 <= k < n - 1 && prefix[k] == InstallEntry(name, r.value) &&
                   forall j :: k < j < n - 1 ==> prefix[j].name != name;
          assert entries[k] == InstallEntry(name, r.value);
          assert forall j :: k < j < n ==> entries[j].name != name by {
            forall j | k < j < n ensures entries[j].name != name {
              if j < n - 1 { assert prefix[j] == entries[j]; }
            }
          }
          r
        else r
  }

  /** After the inner loop, a name maps to its last entry's version, and every other key is as before. */
  lemma {:induction false} SetEntriesLookup(deps: map<string, Json>, entries: seq<InstallEntry>, n: string)
    ensures n in SetEntries(deps, entries) <==> n in deps || LastVersion(entries, n).Some?
    ensures LastVersion(entries, n).Some? ==> SetEntries(deps, entries)[n] == JString(LastVersion(entries, n).value)
    ensures LastVersion(entries, n).None? && n in deps ==> SetEntries(deps, entries)[n] == deps[n]
    decreases |entries|
  {
    if |entries| > 0 {
      SetEntriesLookup(deps, entries[..|entries| - 1], n);
    }
  }

  datatype AddError =
    | VersionNotFound(error: VersionError)
    | ManifestMissing(dir: string)
    /** `packageJson[key][name] = …` on a value that is not an object throws a TypeError. */
    | NotAnObject(dir: string, key: string)

  /** The object a manifest holds under `key`, or the empty object when it holds none. */
  function ObjectAt(m: Manifest, key: string): map<string, Json>
  {
    if key in m && m[key].JObject? then m[key].fields else map[]
  }

  /**
    * The write of all entries into one manifest: a missing key is created as
    * an empty object first; entries set on an object are kept; properties set
    * on an array do not appear in its JSON; any other value throws.
    */
  function AddToManifest(m: Manifest, dir: string, key: string, entries: seq<InstallEntry>): Result<Manifest, AddError>
  {
    if key !in m then Ok(m[key := JObject(SetEntries(map[], entries))])
    else
      match m[key]
      case JObject(fields) => Ok(m[key := JObject(SetEntries(fields, entries))])
      case JArray(_) => Ok(m)
      case _ => Err(NotAnObject(dir, key))
  }

  /**
    * The write fails exactly when the key holds something other than an
    * object or an array. Otherwise every other field is kept; the key then
    * holds an object (unless it was an array) mapping each entry's name to
    * the version of its last entry, and keeping every earlier entry no
    * install entry names.
    */
  lemma AddToManifestEffect(m: Manifest, dir: string, key: string, entries: seq<InstallEntry>)
    ensures var r := AddToManifest(m, dir, key, entries);
            && (r.Err? <==> key in m && !m[key].JObject? && !m[key].JArray?)
            && (r.Ok? ==> r.value.Keys == m.Keys + {key})
            && (r.Ok? ==> forall f :: f in m && f != key ==> r.value[f] == m[f])
            && (r.Ok? && key in m && m[key].JArray? ==> r.value == m)
            && (r.Ok? && !(key in m && m[key].JArray?) ==>
                  && r.value[key].JObject?
                  && (forall e :: e in entries ==>
                        e.name in r.value[key].fields &&
                        r.value[key].fields[e.name] == JString(LastVersion(entries, e.name).value))
                  && (forall n :: key in m && m[key].JObject? && n in m[key].fields && LastVersion(entries, n).None? ==>
                        n in r.value[key].fields && r.value[key].fields[n] == m[key].fields[n])
                  && (forall n :: n in r.value[key].fields ==>
                        LastVersion(entries, n).Some? || (key in m && n in m[key].fields)))
  {
    var r := AddToManifest(m, dir, key, entries);
    if r.Ok? && !(key in m && m[key].JArray?) {
      var base := if key in m then m[key].fields else map[];
      forall n ensures n in SetEntries(base, entries) <==> n in base || LastVersion(entries, n).Some? {
        SetEntriesLookup(base, entries, n);
      }
      forall e | e in entries
        ensures e.name in r.value[key].fields && r.value[key].fields[e.name] == JString(LastVersion(entries, e.name).value)
      {
        SetEntriesLookup(base, entries, e.name);
      }
      forall n | key in m && m[key].JObject? && n in m[key].fields && LastVersion(entries, n).None?
        ensures n in r.value[key].fields && r.value[key].fields[n] == m[key].fields[n]
      {
        SetEntriesLookup(base, entries, n);
      }
    }
  }

  /**
    * A package never receives an entry carrying its own name: whatever the
    * key held under that name before (nothing, when it was just created) it
    * still holds afterwards.
    */
  lemma NoSelfEntry(m: Manifest, dir: string, key: string, install: seq<InstallEntry>, name: string)
    requires AddToManifest(m, dir, key, EntriesFor(install, name)).Ok?
    ensures var r := AddToManifest(m, dir, key, EntriesFor(install, name)).value;
            && key in r
            && (r[key].JObject? ==>
                  && (name in r[key].fields <==> key in m && m[key].JObject? && name in m[key].fields)
                  && (name in r[key].fields ==> r[key].fields[name] == m[key].fields[name]))
  {
    var entries := EntriesFor(install, name);
    assert LastVersion(entries, name).None?;
    AddToManifestEffect(m, dir, key, entries);
  }

  // ---------------------------------------------------------------------
  // The write loop over the target packages
  // ---------------------------------------------------------------------

  /** The manifests, the writes made and the rejection, if any, after the write loop. */
  datatype AddOutcome = AddOutcome(files: map<string, Manifest>, written: seq<string>, failure: Option<AddError>)

  /**
    * The write loop over the targets, in order: a target with no entry left
    * after removing its own name is skipped; the loop stops at the first
    * manifest that is missing or cannot take the entries.
    */
  function AddWrites(files: map<string, Manifest>, targets: seq<Package>, key: string, install: seq<InstallEntry>): AddOutcome
    decreases |targets|
  {
    if |targets| == 0 then AddOutcome(files, [], None)
    else Step(AddWrites(files, targets[..|targets| - 1], key, install), targets[|targets| - 1], key, install)
  }

  /** One iteration of the write loop, on the outcome of the iterations before it. */
  function Step(prev: AddOutcome, pkg: Package, key: string, install: seq<InstallEntry>): AddOutcome
  {
    var entries := EntriesFor(install, pkg.name);
    if prev.failure.Some? || |entries| == 0 then prev
    else if pkg.dir !in prev.files then prev.(failure := Some(ManifestMissing(pkg.dir)))
    else
      match AddToManifest(prev.files[pkg.dir], pkg.dir, key, entries)
      case Ok(m) => AddOutcome(prev.files[pkg.dir := m], prev.written + [pkg.dir], None)
      case Err(e) => prev.(failure := Some(e))
  }

  /** An iteration touches no directory but its target's: it keeps every key and writes only there. */
  lemma StepFrame(prev: AddOutcome, pkg: Package, key: string, install: seq<InstallEntry>)
    ensures var next := Step(prev, pkg, key, install);
            && next.files.Keys == prev.files.Keys
            && (forall d :: d in prev.files && d != pkg.dir ==> next.files[d] == prev.files[d])
            && (forall d :: d in next.written ==> d in prev.written || d == pkg.dir)
  {
  }

  /** An iteration does not depend on the writes made before it: it only appends its own. */
  lemma StepAppends(files: map<string, Manifest>, written: seq<string>, pkg: Package, key: string, install: seq<InstallEntry>)
    ensures var alone := Step(AddOutcome(files, [], None), pkg, key, install);
            Step(AddOutcome(files, written, None), pkg, key, install)
              == AddOutcome(alone.files, written + alone.written, alone.failure)
  {
  }

  /** One more target, after iterations that succeeded: its own outcome, with its writes after theirs. */
  lemma AddWritesNext(files: map<string, Manifest>, targets: seq<Package>, key: string, install: seq<InstallEntry>, i: nat)
    requires i < |targets|
    requires AddWrites(files, targets[..i], key, install).failure.None?
    ensures var prev := AddWrites(files, targets[..i], key, install);
            var alone := Step(AddOutcome(prev.files, [], None), targets[i], key, install);
            AddWrites(files, targets[..i + 1], key, install) == AddOutcome(alone.files, prev.written + alone.written, alone.failure)
  {
    var prev := AddWrites(files, targets[..i], key, install);
    assert targets[..i + 1][..i] == targets[..i];
    assert AddWrites(files, targets[..i + 1], key, install) == Step(prev, targets[i], key, install);
    StepAppends(prev.files, prev.written, targets[i], key, install);
  }

  /** Once the loop has stopped, the later targets change nothing. */
  lemma {:induction false} AddFailureStops(files: map<string, Manifest>, targets: seq<Package>, key: string, install: seq<InstallEntry>, i: nat)
    requires i <= |targets|
    requires AddWrites(files, targets[..i], key, install).failure.Some?
    ensures AddWrites(files, targets, key, install) == AddWrites(files, targets[..i], key, install)
    decreases |targets|
  {
    if i < |targets| {
      var init := targets[..|targets| - 1];
      assert init[..i] == targets[..i];
      AddFailureStops(files, init, key, install, i);
    } else {
      assert targets[..i] == targets;
    }
  }

  /** No two targets share a directory. */
  predicate DistinctDirs(targets: seq<Package>)
  {
    forall i, j :: 0 <= i < j < |targets| ==> targets[i].dir != targets[j].dir
  }

  /** The directories of the targets that have an entry to receive, in order. */
  function WrittenDirs(targets: seq<Package>, install: seq<InstallEntry>): seq<string>
    decreases |targets|
  {
    if |targets| == 0 then []
    else
      var pkg := targets[|targets| - 1];
      WrittenDirs(targets[..|targets| - 1], install) + (if |EntriesFor(install, pkg.name)| > 0 then [pkg.dir] else [])
  }

  lemma {:induction false} WrittenDirsAreTargetDirs(targets: seq<Package>, install: seq<InstallEntry>, d: string)
    ensures d in WrittenDirs(targets, install) ==>
              exists k :: 0 <= k < |targets| && targets[k].dir == d && |EntriesFor(install, targets[k].name)| > 0
    decreases |targets|
  {
    if |targets| > 0 {
      var init := targets[..|targets| - 1];
      WrittenDirsAreTargetDirs(init, install, d);
      if d in WrittenDirs(init, install) {
        var k :| 0 <= k < |init| && init[k].dir == d && |EntriesFor(install, init[k].name)| > 0;
        assert targets[k] == init[k];
      }
    }
  }

  /**
    * No manifest is created or lost, and a directory that is not a target's
    * is untouched and not written.
    */
  lemma {:induction false} AddWritesUntouched(files: map<string, Manifest>, targets: seq<Package>, key: string, install: seq<InstallEntry>)
    ensures var o := AddWrites(files, targets, key, install);
            && o.files.Keys == files.Keys
            && (forall d :: d in files && (forall k :: 0 <= k < |targets| ==> targets[k].dir != d) ==>
                  o.files[d] == files[d] && d !in o.written)
    decreases |targets|
  {
    if |targets| > 0 {
      var init := targets[..|targets| - 1];
      var pkg := targets[|targets| - 1];
      AddWritesUntouched(files, init, key, install);
      StepFrame(AddWrites(files, init, key, install), pkg, key, install);
      forall d | d in files && (forall k :: 0 <= k < |targets| ==> targets[k].dir != d)
        ensures (forall k :: 0 <= k < |init| ==> init[k].dir != d) && pkg.dir != d
      {
        forall k | 0 <= k < |init| ensures init[k].dir != d {
          assert init[k] == targets[k];
        }
      }
    }
  }

  /** Without a rejection, the written directories are those of the targets with an entry left, in order. */
  lemma {:induction false} AddWritesWritten(files: map<string, Manifest>, targets: seq<Package>, key: string, install: seq<InstallEntry>)
    requires AddWrites(files, targets, key, install).failure.None?
    ensures AddWrites(files, targets, key, install).written == WrittenDirs(targets, install)
    decreases |targets|
  {
    if |targets| > 0 {
      AddWritesWritten(files, targets[..|targets| - 1], key, install);
    }
  }

  /**
    * Without a rejection, and with targets in distinct directories, each
    * target with entries left holds the single-manifest write of its entries
    * and each other target is untouched.
    */
  lemma {:induction false} AddWritesResult(files: map<string, Manifest>, targets: seq<Package>, key: string, install: seq<InstallEntry>)
    requires DistinctDirs(targets)
    requires AddWrites(files, targets, key, install).failure.None?
    ensures var o := AddWrites(files, targets, key, install);
            forall k :: 0 <= k < |targets| ==> TargetWritten(files, o.files, targets[k], key, install)
    decreases |targets|
  {
    if |targets| > 0 {
      var init := targets[..|targets| - 1];
      var pkg := targets[|targets| - 1];
      assert DistinctDirs(init) by {
        forall i, j | 0 <= i < j < |init| ensures init[i].dir != init[j].dir {
          assert init[i] == targets[i] && init[j] == targets[j];
        }
      }
      AddWritesLastStep(files, targets, key, install);
      AddWritesResult(files, init, key, install);
      AddWritesUntouched(files, init, key, install);
      var prev := AddWrites(files, init, key, install);
      var o := AddWrites(files, targets, key, install);
      assert forall k :: 0 <= k < |init| ==> init[k].dir != pkg.dir by {
        forall k | 0 <= k < |init| ensures init[k].dir != pkg.dir {
          assert init[k] == targets[k];
        }
      }
      forall k | 0 <= k < |targets| ensures TargetWritten(files, o.files, targets[k], key, install) {
        if k < |init| {
          assert targets[k] == init[k];
          TargetWrittenAfter(files, prev.files, o.files, init[k], key, install);
        } else {
          assert targets[k] == pkg;
          TargetWrittenFrom(files, prev.files, o.files, pkg, key, install);
        }
      }
    }
  }

  /**
    * The last target's step: the earlier targets did not reject, the last
    * target's manifest is written from the state before it, and every other
    * directory keeps its manifest.
    */
  lemma AddWritesLastStep(files: map<string, Manifest>, targets: seq<Package>, key: string, install: seq<InstallEntry>)
    requires |targets| > 0
    requires AddWrites(files, targets, key, install).failure.None?
    ensures var prev := AddWrites(files, targets[..|targets| - 1], key, install);
            var o := AddWrites(files, targets, key, install);
            var pkg := targets[|targets| - 1];
            && prev.failure.None?
            && TargetWritten(prev.files, o.files, pkg, key, install)
            && (forall d :: d != pkg.dir ==> (d in o.files <==> d in prev.files))
            && (forall d :: d != pkg.dir && d in o.files ==> o.files[d] == prev.files[d])
  {
  }

  /** A target's outcome survives later steps that leave its directory alone. */
  lemma TargetWrittenAfter(files: map<string, Manifest>, mid: map<string, Manifest>, after: map<string, Manifest>,
                           pkg: Package, key: string, install: seq<InstallEntry>)
    requires TargetWritten(files, mid, pkg, key, install)
    requires pkg.dir in mid <==> pkg.dir in after
    requires pkg.dir in mid ==> after[pkg.dir] == mid[pkg.dir]
    ensures TargetWritten(files, after, pkg, key, install)
  {
  }

  /** A target's outcome from a later state holds from the start when the earlier steps left its directory alone. */
  lemma TargetWrittenFrom(files: map<string, Manifest>, mid: map<string, Manifest>, after: map<string, Manifest>,
                          pkg: Package, key: string, install: seq<InstallEntry>)
    requires TargetWritten(mid, after, pkg, key, install)
    requires pkg.dir in mid <==> pkg.dir in files
    requires pkg.dir in mid ==> mid[pkg.dir] == files[pkg.dir]
    ensures TargetWritten(files, after, pkg, key, install)
  {
  }

  /**
    * The state of one target's manifest after the loop: the single-manifest
    * write of its entries when it has any, otherwise untouched.
    */
  predicate TargetWritten(files: map<string, Manifest>, after: map<string, Manifest>, pkg: Package, key: string, install: seq<InstallEntry>)
  {
    var entries := EntriesFor(install, pkg.name);
    && (|entries| == 0 ==> (pkg.dir in files <==> pkg.dir in after) && (pkg.dir in files ==> after[pkg.dir] == files[pkg.dir]))
    && (|entries| > 0 ==> pkg.dir in files && pkg.dir in after && AddToManifest(files[pkg.dir], pkg.dir, key, entries) == Ok(after[pkg.dir]))
  }

  /**
    * The body of the write loop for one manifest: create the key when it is
    * absent, then set every entry on the value under the key, in order.
    */
  method SetInPlace(manifest: Manifest, dir: string, key: string, entries: seq<InstallEntry>)
    returns (r: Result<Manifest, AddError>)
    requires |entries| > 0
    ensures r == AddToManifest(manifest, dir, key, entries)
  {
    var packageJson := manifest;
    ghost var base := ObjectAt(manifest, key);
    if key !in packageJson {
      packageJson := packageJson[key := JObject(map[])];
    }
    var j := 0;
    while j < |entries|
      invariant 0 <= j <= |entries|
      invariant key in packageJson
      invariant key in manifest && manifest[key].JArray? ==> packageJson == manifest
      invariant key in manifest && !manifest[key].JArray? && !manifest[key].JObject? ==>
                  j == 0 && packageJson == manifest
      invariant key !in manifest || manifest[key].JObject? ==>
                  packageJson == manifest[key := JObject(SetEntries(base, entries[..j]))]
    {
      assert entries[..j + 1][..j] == entries[..j];
      var entry := entries[j];
      match packageJson[key] {
        case JObject(fields) =>
          packageJson := packageJson[key := JObject(fields[entry.name := JString(entry.version)])];
        case JArray(_) =>
        case _ =>
          return Err(NotAnObject(dir, key));
      }
      j := j + 1;
    }
    assert entries[..|entries|] == entries;
    r := Ok(packageJson);
  }

  /**
    * The write loop of the handler: for each target with entries left, read
    * its manifest, create the dependency key if it is absent, set every entry
    * in place and write the manifest back.
    */
  method AddToTargets(store: ManifestStore, targets: seq<Package>, key: string, install: seq<InstallEntry>)
    returns (failure: Option<AddError>)
    modifies store
    ensures var o := AddWrites(old(store.files), targets, key, install);
            store.files == o.files && store.written == old(store.written) + o.written && failure == o.failure
  {
    ghost var files0, written0 := store.files, store.written;
    var i := 0;
    while i < |targets|
      invariant 0 <= i <= |targets|
      invariant var o := AddWrites(files0, targets[..i], key, install);
                store.files == o.files && store.written == written0 + o.written && o.failure.None?
    {
      failure := AddNextTarget(store, files0, written0, targets, key, install, i);
      if failure.Some? {
        return;
      }
      i := i + 1;
    }
    assert targets[..|targets|] == targets;
    failure := None;
  }

  /**
    * Target i of the write loop, after the targets before it succeeded: on
    * success the store holds the outcome of the first i + 1 targets, on
    * failure that of the whole loop.
    */
  method AddNextTarget(store: ManifestStore, ghost files0: map<string, Manifest>, ghost written0: seq<string>,
                       targets: seq<Package>, key: string, install: seq<InstallEntry>, i: nat)
    returns (failure: Option<AddError>)
    requires i < |targets|
    requires var o := AddWrites(files0, targets[..i], key, install);
             store.files == o.files && store.written == written0 + o.written && o.failure.None?
    modifies store
    ensures failure.None? ==>
              var o := AddWrites(files0, targets[..i + 1], key, install);
              store.files == o.files && store.written == written0 + o.written && o.failure.None?
    ensures failure.Some? ==>
              var o := AddWrites(files0, targets, key, install);
              store.files == o.files && store.written == written0 + o.written && failure == o.failure
  {
    AddWritesNext(files0, targets, key, install, i);
    failure := AddToTarget(store, targets[i], key, install);
    if failure.Some? {
      AddFailureStops(files0, targets, key, install, i + 1);
    }
  }

  /**
    * One iteration of the write loop: when the target has entries left, read
    * its manifest, set the entries in place and write it back.
    */
  method AddToTarget(store: ManifestStore, pkg: Package, key: string, install: seq<InstallEntry>)
    returns (failure: Option<AddError>)
    modifies store
    ensures var s := Step(AddOutcome(old(store.files), [], None), pkg, key, install);
            store.files == s.files && store.written == old(store.written) + s.written && failure == s.failure
  {
    failure := None;
    var entries := EntriesFor(install, pkg.name);
    if |entries| > 0 {
      var read := store.Read(pkg.dir);
      if read.None? {
        failure := Some(ManifestMissing(pkg.dir));
        return;
      }
      var written := SetInPlace(read.value, pkg.dir, key, entries);
      if written.Err? {
        failure := Some(written.error);
        return;
      }
      store.Write(pkg.dir, written.value);
    }
  }

  // ---------------------------------------------------------------------
  // The handler
  // ---------------------------------------------------------------------

  /**
    * The handler. Without a workspace root, or with no selected package, it
    * warns and changes nothing. When a version cannot be resolved it rejects
    * before logging or writing anything. Otherwise it logs the targets, runs
    * the write loop with every install entry, and starts `yarn` with the root as `cwd`
    * only when the loop completed.
    */
  method AddHandler(store: ManifestStore, packages: seq<Package>, monoRepo: Option<MonoRepo.MonoRepo>,
                    names: seq<string>, filter: string, dev: bool, registry: string -> Option<string>)
    returns (logs: seq<LogCall>, yarnAt: Option<MonoRepo.Path>, failure: Option<AddError>)
    modifies store
    ensures monoRepo.None? ==>
              logs == [LogCall(Warn, NoMonoRepo)] && yarnAt.None? && failure.None? && unchanged(store)
    ensures monoRepo.Some? && |FilterPackages(packages, filter)| == 0 ==>
              logs == [LogCall(Warn, NoPackages)] && yarnAt.None? && failure.None? && unchanged(store)
    ensures monoRepo.Some? && |FilterPackages(packages, filter)| > 0 && InstallEntries(packages, names, registry).Err? ==>
              && logs == [] && yarnAt.None? && unchanged(store)
              && failure == Some(VersionNotFound(InstallEntries(packages, names, registry).error))
    ensures monoRepo.Some? && |FilterPackages(packages, filter)| > 0 && InstallEntries(packages, names, registry).Ok? ==>
              var targets := FilterPackages(packages, filter);
              var o := AddWrites(old(store.files), targets, DependencyKey(dev), InstallEntries(packages, names, registry).value);
              && logs == [LogCall(Log, TargetPackagesMessage(targets))]
              && store.files == o.files && store.written == old(store.written) + o.written
              && failure == o.failure
              && (yarnAt.Some? <==> failure.None?)
              && (yarnAt.Some? ==> yarnAt.value == monoRepo.value.dir)
  {
    yarnAt := None;
    failure := None;
    logs := [];
    if monoRepo.None? {
      logs := [LogCall(Warn, NoMonoRepo)];
      return;
    }
    var targets := FilterPackages(packages, filter);
    if |targets| == 0 {
      logs := [LogCall(Warn, NoPackages)];
      return;
    }
    var install := InstallEntries(packages, names, registry);
    if install.Err? {
      failure := Some(VersionNotFound(install.error));
      return;
    }
    logs := [LogCall(Log, TargetPackagesMessage(targets))];
    failure := AddToTargets(store, targets, DependencyKey(dev), install.value);
    if failure.None? {
      yarnAt := Some(monoRepo.value.dir);
    }
  }
}
