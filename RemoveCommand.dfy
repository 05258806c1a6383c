/**
  * The `remove` command (src/commands/remove.ts): for every selected
  * package, delete the named entries from its `dependencies` and
  * `devDependencies` objects, write the manifest back, then start `yarn` with
  * the workspace root as its `cwd`.
  */
module RemoveCommand {

  import opened Wrappers
  import opened Json
  import opened Packages
  import opened Logger
  import opened Messages
  import opened Manifests
  import MonoRepo

  /**
    * `if (packageJson[field]) delete packageJson[field][name]`: an object
    * loses the key; anything else (missing, falsy or not an object) is
    * left alone.
    */
  function DeleteEntry(m: Manifest, field: string, name: string): (r: Manifest)
    ensures r.Keys == m.Keys
    ensures forall f :: f in m && f != field ==> r[f] == m[f]
    ensures field in m && m[field].JObject? ==> r[field] == JObject(m[field].fields - {name})
    ensures !(field in m && m[field].JObject?) ==> r == m
  {
    if field in m && m[field].JObject? then m[field := JObject(m[field].fields - {name})] else m
  }

  /** One pass of the inner loop: the name goes from both dependency objects. */
  function RemoveName(m: Manifest, name: string): Manifest
  {
    DeleteEntry(DeleteEntry(m, "dependencies", name), "devDependencies", name)
  }

  /** The inner loop over the names to remove, in order. */
  function RemoveNames(m: Manifest, names: seq<string>): Manifest
    decreases |names|
  {
    if |names| == 0 then m
    else RemoveName(RemoveNames(m, names[..|names| - 1]), names[|names| - 1])
  }

  /** A dependency object without the given keys; any other value as it is. */
  function Strip(j: Json, gone: set<string>): (r: Json)
    ensures j.JObject? ==> r.JObject? && r.fields.Keys == j.fields.Keys - gone
    ensures j.JObject? ==> forall k :: k in r.fields ==> r.fields[k] == j.fields[k]
    ensures !j.JObject? ==> r == j
  {
    if j.JObject? then JObject(j.fields - gone) else j
  }

  /** `m` with `field` stripped of the given keys, when `m` has that field. */
  function StripField(m: Manifest, field: string, gone: set<string>): (r: Manifest)
    ensures r.Keys == m.Keys
    ensures forall f :: f in m && f != field ==> r[f] == m[f]
    ensures field in m ==> r[field] == Strip(m[field], gone)
  {
    if field in m then m[field := Strip(m[field], gone)] else m
  }

  /** The manifest with both dependency objects stripped of the given names. */
  function StripAll(m: Manifest, gone: set<string>): Manifest
  {
    StripField(StripField(m, "dependencies", gone), "devDependencies", gone)
  }

  /** The names of a list, as a set. */
  function NameSet(names: seq<string>): (s: set<string>)
    ensures forall n :: n in s <==> n in names
  {
    set k | 0 <= k < |names| :: names[k]
  }

  /** The inner loop, whatever the order and repetition of the names, strips exactly that set of names. */
  lemma {:induction false} RemoveNamesClosedForm(m: Manifest, names: seq<string>)
    ensures RemoveNames(m, names) == StripAll(m, NameSet(names))
    decreases |names|
  {
    if |names| == 0 {
      assert NameSet(names) == {};
      StripNothing(m);
    } else {
      var init, last := names[..|names| - 1], names[|names| - 1];
      RemoveNamesClosedForm(m, init);
      assert NameSet(names) == NameSet(init) + {last} by {
        assert names == init + [last];
      }
      StripMore(m, NameSet(init), last);
    }
  }

  /** Stripping no name changes nothing. */
  lemma StripNothing(m: Manifest)
    ensures StripAll(m, {}) == m
  {
    forall f | f in m ensures StripAll(m, {})[f] == m[f] {
      if m[f].JObject? {
        assert m[f].fields - {} == m[f].fields;
      }
    }
  }

  /** Removing one more name after a strip strips the larger set. */
  lemma StripMore(m: Manifest, gone: set<string>, name: string)
    ensures RemoveName(StripAll(m, gone), name) == StripAll(m, gone + {name})
  {
    var a, b := RemoveName(StripAll(m, gone), name), StripAll(m, gone + {name});
    forall f | f in m ensures a[f] == b[f] {
      if (f == "dependencies" || f == "devDependencies") && m[f].JObject? {
        assert m[f].fields - gone - {name} == m[f].fields - (gone + {name});
      }
    }
  }

  /** Removing the same names twice leaves the manifest as removing them once. */
  lemma RemoveIdempotent(m: Manifest, names: seq<string>)
    ensures RemoveNames(RemoveNames(m, names), names) == RemoveNames(m, names)
  {
    RemoveNamesClosedForm(m, names);
    RemoveNamesClosedForm(RemoveNames(m, names), names);
    StripTwice(m, NameSet(names));
  }

  lemma StripTwice(m: Manifest, gone: set<string>)
    ensures StripAll(StripAll(m, gone), gone) == StripAll(m, gone)
  {
    var a, b := StripAll(StripAll(m, gone), gone), StripAll(m, gone);
    forall f | f in m ensures a[f] == b[f] {
      if (f == "dependencies" || f == "devDependencies") && m[f].JObject? {
        assert m[f].fields - gone - gone == m[f].fields - gone;
      }
    }
  }

  /**
    * After the inner loop no removed name is a key of either dependency
    * object; every other entry, every other field, and any dependency field
    * that is not an object stay as they were; no field is created.
    */
  lemma RemoveNamesEffect(m: Manifest, names: seq<string>)
    ensures var r := RemoveNames(m, names);
            && r.Keys == m.Keys
            && (forall f :: f in m && f != "dependencies" && f != "devDependencies" ==> r[f] == m[f])
            && (forall f :: f in m && !m[f].JObject? ==> r[f] == m[f])
            && (forall f, n :: (f == "dependencies" || f == "devDependencies") && f in r && r[f].JObject? && n in names ==>
                  n !in r[f].fields)
            && (forall f :: (f == "dependencies" || f == "devDependencies") && f in m && m[f].JObject? ==>
                  r[f].JObject? &&
                  forall k :: k in m[f].fields && k !in names ==> k in r[f].fields && r[f].fields[k] == m[f].fields[k])
  {
    RemoveNamesClosedForm(m, names);
  }

  datatype RemoveError = ManifestMissing(dir: string)

  /** The manifests, the writes made and the rejection, if any, after the outer loop. */
  datatype RemoveOutcome = RemoveOutcome(files: map<string, Manifest>, written: seq<string>, failure: Option<RemoveError>)

  /** The edit the handler makes to each target's manifest. */
  function RemovalOf(names: seq<string>): Manifest -> Manifest
  {
    m => RemoveNames(m, names)
  }

  /**
    * The outer loop over the targets, in order, applying `edit` to each
    * target's manifest; it stops at the first manifest that cannot be read.
    */
  function WritesWith(files: map<string, Manifest>, targets: seq<Package>, edit: Manifest -> Manifest): RemoveOutcome
    decreases |targets|
  {
    if |targets| == 0 then RemoveOutcome(files, [], None)
    else
      var prev := WritesWith(files, targets[..|targets| - 1], edit);
      var dir := targets[|targets| - 1].dir;
      if prev.failure.Some? then prev
      else if dir !in prev.files then prev.(failure := Some(ManifestMissing(dir)))
      else RemoveOutcome(prev.files[dir := edit(prev.files[dir])], prev.written + [dir], None)
  }

  /** The outer loop of the handler: the names removed from each target's manifest. */
  function RemoveWrites(files: map<string, Manifest>, targets: seq<Package>, names: seq<string>): RemoveOutcome
  {
    WritesWith(files, targets, RemovalOf(names))
  }

  /** Once the loop has stopped, the later targets change nothing. */
  lemma {:induction false} RemoveFailureStops(files: map<string, Manifest>, targets: seq<Package>, names: seq<string>, i: nat)
    requires i <= |targets|
    requires RemoveWrites(files, targets[..i], names).failure.Some?
    ensures RemoveWrites(files, targets, names) == RemoveWrites(files, targets[..i], names)
  {
    FailureStops(files, targets, RemovalOf(names), i);
  }

  /** Once the loop has stopped, the later targets change nothing, whatever the edit. */
  lemma {:induction false} FailureStops(files: map<string, Manifest>, targets: seq<Package>, edit: Manifest -> Manifest, i: nat)
    requires i <= |targets|
    requires WritesWith(files, targets[..i], edit).failure.Some?
    ensures WritesWith(files, targets, edit) == WritesWith(files, targets[..i], edit)
    decreases |targets|
  {
    if i < |targets| {
      var init := targets[..|targets| - 1];
      assert init[..i] == targets[..i];
      FailureStops(files, init, edit, i);
    } else {
      assert targets[..i] == targets;
    }
  }

  /** The directories of the packages, in order. */
  function Dirs(targets: seq<Package>): (r: seq<string>)
    ensures |r| == |targets|
    ensures forall k :: 0 <= k < |r| ==> r[k] == targets[k].dir
  {
    seq(|targets|, k requires 0 <= k < |targets| => targets[k].dir)
  }

  /** The directories of the targets are those of all but the last, then the last one's. */
  lemma DirsSnoc(targets: seq<Package>)
    requires |targets| > 0
    ensures Dirs(targets) == Dirs(targets[..|targets| - 1]) + [targets[|targets| - 1].dir]
  {
    var init := targets[..|targets| - 1];
    assert forall k :: 0 <= k < |init| ==> Dirs(targets)[k] == Dirs(init)[k];
  }

  /** Applying the edit twice is applying it once. */
  ghost predicate Idempotent(edit: Manifest -> Manifest)
  {
    forall m :: edit(edit(m)) == edit(m)
  }

  /**
    * What the outer loop leaves behind: no manifest is created or lost, every
    * manifest is either untouched or has had the names removed once, a
    * directory that is no target is untouched and not written, and without a
    * rejection every target is written, in order, with the names removed.
    */
  lemma RemoveWritesEffect(files: map<string, Manifest>, targets: seq<Package>, names: seq<string>)
    ensures var o := RemoveWrites(files, targets, names);
            && o.files.Keys == files.Keys
            && (forall d :: d in files ==> o.files[d] == files[d] || o.files[d] == RemoveNames(files[d], names))
            && (forall d :: d in files && d !in Dirs(targets) ==> o.files[d] == files[d] && d !in o.written)
            && (o.failure.None? ==> o.written == Dirs(targets))
            && (o.failure.None? ==> forall k :: 0 <= k < |targets| ==>
                  targets[k].dir in files && o.files[targets[k].dir] == RemoveNames(files[targets[k].dir], names))
            && (o.failure.Some? ==> o.failure.value.dir in Dirs(targets) && o.failure.value.dir !in files)
  {
    var edit := RemovalOf(names);
    forall m ensures edit(edit(m)) == edit(m) {
      RemoveIdempotent(m, names);
    }
    WritesFrame(files, targets, edit);
    WritesComplete(files, targets, edit);
    WritesFailure(files, targets, edit);
  }

  /**
    * Under an idempotent edit no manifest is created or lost, every manifest
    * is either untouched or edited once, and a directory that is no target
    * is untouched and not written.
    */
  lemma {:induction false} WritesFrame(files: map<string, Manifest>, targets: seq<Package>, edit: Manifest -> Manifest)
    requires Idempotent(edit)
    ensures var o := WritesWith(files, targets, edit);
            && o.files.Keys == files.Keys
            && (forall d :: d in files ==> o.files[d] == files[d] || o.files[d] == edit(files[d]))
            && (forall d :: d in files && d !in Dirs(targets) ==> o.files[d] == files[d] && d !in o.written)
    decreases |targets|
  {
    if |targets| > 0 {
      var init := targets[..|targets| - 1];
      WritesFrame(files, init, edit);
      DirsSnoc(targets);
    }
  }

  /** Without a rejection every target is written, in order, and edited. */
  lemma {:induction false} WritesComplete(files: map<string, Manifest>, targets: seq<Package>, edit: Manifest -> Manifest)
    requires Idempotent(edit)
    ensures var o := WritesWith(files, targets, edit);
            o.failure.None? ==>
              && o.written == Dirs(targets)
              && forall k :: 0 <= k < |targets| ==>
                   && targets[k].dir in files && targets[k].dir in o.files
                   && o.files[targets[k].dir] == edit(files[targets[k].dir])
    decreases |targets|
  {
    if |targets| > 0 {
      var init := targets[..|targets| - 1];
      var dir := targets[|targets| - 1].dir;
      var prev := WritesWith(files, init, edit);
      if prev.failure.None? && dir in prev.files {
        WritesComplete(files, init, edit);
        WritesFrame(files, init, edit);
        DirsSnoc(targets);
        var o := WritesWith(files, targets, edit);
        assert o.files == prev.files[dir := edit(prev.files[dir])];
        forall k | 0 <= k < |targets|
          ensures && targets[k].dir in files && targets[k].dir in o.files
                  && o.files[targets[k].dir] == edit(files[targets[k].dir])
        {
          if targets[k].dir == dir {
            assert prev.files[dir] == files[dir] || prev.files[dir] == edit(files[dir]);
          } else {
            assert init[k] == targets[k];
          }
        }
      }
    }
  }

  /** A rejection names a target directory that has no manifest. */
  lemma {:induction false} WritesFailure(files: map<string, Manifest>, targets: seq<Package>, edit: Manifest -> Manifest)
    requires Idempotent(edit)
    ensures var o := WritesWith(files, targets, edit);
            o.failure.Some? ==> o.failure.value.dir in Dirs(targets) && o.failure.value.dir !in files
    decreases |targets|
  {
    if |targets| > 0 {
      var init := targets[..|targets| - 1];
      WritesFailure(files, init, edit);
      WritesFrame(files, init, edit);
      DirsSnoc(targets);
    }
  }

  /**
    * The outer loop of the handler: read each target's manifest, delete the
    * names from both dependency objects in place, write it back.
    */
  method RemoveFromTargets(store: ManifestStore, targets: seq<Package>, names: seq<string>) returns (failure: Option<RemoveError>)
    modifies store
    ensures var o := RemoveWrites(old(store.files), targets, names);
            store.files == o.files && store.written == old(store.written) + o.written && failure == o.failure
  {
    ghost var files0, written0 := store.files, store.written;
    var i := 0;
    while i < |targets|
      invariant 0 <= i <= |targets|
      invariant var o := RemoveWrites(files0, targets[..i], names);
                store.files == o.files && store.written == written0 + o.written && o.failure.None?
    {
      assert targets[..i + 1][..i] == targets[..i];
      var pkg := targets[i];
      var read := store.Read(pkg.dir);
      if read.None? {
        failure := Some(ManifestMissing(pkg.dir));
        RemoveFailureStops(files0, targets, names, i + 1);
        return;
      }
      var packageJson := read.value;
      var j := 0;
      while j < |names|
        invariant 0 <= j <= |names|
        invariant packageJson == RemoveNames(read.value, names[..j])
      {
        assert names[..j + 1][..j] == names[..j];
        var name := names[j];
        if "dependencies" in packageJson && packageJson["dependencies"].JObject? {
          packageJson := packageJson["dependencies" := JObject(packageJson["dependencies"].fields - {name})];
        }
        if "devDependencies" in packageJson && packageJson["devDependencies"].JObject? {
          packageJson := packageJson["devDependencies" := JObject(packageJson["devDependencies"].fields - {name})];
        }
        j := j + 1;
      }
      assert names[..|names|] == names;
      store.Write(pkg.dir, packageJson);
      i := i + 1;
    }
    assert targets[..|targets|] == targets;
    failure := None;
  }

  /**
    * The handler. Without a workspace root, or with no selected package, it
    * warns and changes nothing. Otherwise it logs the targets, runs the outer
    * loop, and starts `yarn` with the root as `cwd` only when no manifest was missing.
    */
  method RemoveHandler(store: ManifestStore, packages: seq<Package>, monoRepo: Option<MonoRepo.MonoRepo>,
                       names: seq<string>, filter: string)
    returns (logs: seq<LogCall>, yarnAt: Option<MonoRepo.Path>, failure: Option<RemoveError>)
    modifies store
    ensures monoRepo.None? ==>
              logs == [LogCall(Warn, NoMonoRepo)] && yarnAt.None? && failure.None? && unchanged(store)
    ensures monoRepo.Some? && |FilterPackages(packages, filter)| == 0 ==>
              logs == [LogCall(Warn, NoPackages)] && yarnAt.None? && failure.None? && unchanged(store)
    ensures monoRepo.Some? && |FilterPackages(packages, filter)| > 0 ==>
              var targets := FilterPackages(packages, filter);
              var o := RemoveWrites(old(store.files), targets, names);
              && logs == [LogCall(Log, TargetPackagesMessage(targets))]
              && store.files == o.files && store.written == old(store.written) + o.written
              && failure == o.failure
              && (yarnAt.Some? <==> failure.None?)
              && (yarnAt.Some? ==> yarnAt.value == monoRepo.value.dir)
  {
    yarnAt := None;
    failure := None;
    if monoRepo.None? {
      logs := [LogCall(Warn, NoMonoRepo)];
      return;
    }
    var targets := FilterPackages(packages, filter);
    if |targets| == 0 {
      logs := [LogCall(Warn, NoPackages)];
      return;
    }
    logs := [LogCall(Log, TargetPackagesMessage(targets))];
    failure := RemoveFromTargets(store, targets, names);
    if failure.None? {
      yarnAt := Some(monoRepo.value.dir);
    }
  }
}
