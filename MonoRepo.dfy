/**
  * The workspace-root search (getMonoRepo in src/mono-repo.ts): starting at
  * a directory, walk up towards the filesystem root and stop at the first
  * directory whose `package.json` is marked `private: true` and has an
  * array of `workspaces`.
  */
module MonoRepo {

  import opened Wrappers
  import opened Json

  /** An absolute directory as its list of segments; the filesystem root is `[]`. */
  type Path = seq<string>

  /** `resolve(dir, "..")`: drop the last segment; the root is its own parent. */
  function Parent(dir: Path): (p: Path)
    ensures dir == [] ==> p == dir
    ensures dir != [] ==> p <= dir && |p| == |dir| - 1
  {
    if dir == [] then [] else dir[..|dir| - 1]
  }

  /**
    * The `package.json` files of the filesystem, by directory: a directory
    * without one is not a key; None marks a file that `readJson` cannot parse.
    */
  type FileSystem = map<Path, Option<Json>>

  /** The workspace root found: the parsed root manifest and `__dir`. */
  datatype MonoRepo = MonoRepo(dir: Path, manifest: Manifest)

  /** The rejection of `getMonoRepo` when a manifest on the way up cannot be read. */
  datatype SearchError = RootManifestUnreadable(dir: Path)

  /** The Yarn-workspaces test: `private === true` and `Array.isArray(workspaces)`. */
  predicate IsWorkspaceManifest(j: Json)
  {
    && j.JObject?
    && "private" in j.fields && j.fields["private"] == JBool(true)
    && "workspaces" in j.fields && j.fields["workspaces"].JArray?
  }

  /** The directory holds a parsed manifest that passes the test. */
  predicate Qualifies(fs: FileSystem, dir: Path)
  {
    dir in fs && fs[dir].Some? && IsWorkspaceManifest(fs[dir].value)
  }

  /**
    * Reading the directory's `package.json` throws: `readJson` cannot parse
    * it, or it holds `null`, whose `private` property cannot be read.
    */
  predicate Unreadable(fs: FileSystem, dir: Path)
  {
    dir in fs && (fs[dir].None? || fs[dir].value.JNull?)
  }

  /** The search passes over `dir` and goes on to its parent. */
  predicate PassesOver(fs: FileSystem, dir: Path)
  {
    !Qualifies(fs, dir) && !Unreadable(fs, dir)
  }

  /**
    * `getMonoRepo(currentDir)`. Every directory the search moves past was
    * neither a workspace root nor unreadable; a result names the nearest such
    * ancestor-or-self, an error the nearest unreadable one, and None says that
    * no ancestor qualifies.
    */
  function GetMonoRepo(fs: FileSystem, currentDir: Path): (r: Result<Option<MonoRepo>, SearchError>)
    ensures r.Ok? && r.value.Some? ==>
              var root := r.value.value;
              && root.dir <= currentDir
              && Qualifies(fs, root.dir)
              && fs[root.dir] == Some(JObject(root.manifest))
              && forall k :: |root.dir| < k <= |currentDir| ==> PassesOver(fs, currentDir[..k])
    ensures r.Ok? && r.value.None? ==>
              forall k :: 0 <= k <= |currentDir| ==> PassesOver(fs, currentDir[..k])
    ensures r.Err? ==>
              && r.error.dir <= currentDir
              && Unreadable(fs, r.error.dir)
              && forall k :: |r.error.dir| < k <= |currentDir| ==> PassesOver(fs, currentDir[..k])
    decreases |currentDir|
  {
    assert currentDir[..|currentDir|] == currentDir;
    if Unreadable(fs, currentDir) then
      Err(RootManifestUnreadable(currentDir))
    else if currentDir in fs && IsWorkspaceManifest(fs[currentDir].value) then
      Ok(Some(MonoRepo(currentDir, fs[currentDir].value.fields)))
    else
      var up := Parent(currentDir);
      if up == currentDir then Ok(None)
      else
        var r := GetMonoRepo(fs, up);
        assert forall k :: 0 <= k <= |up| ==> up[..k] == currentDir[..k];
        r
  }

  /**
    * Resolving from any directory below a workspace root, with nothing in
    * between that qualifies or fails to parse, finds that same root.
    */
  lemma {:induction false} FoundFromDescendant(fs: FileSystem, root: Path, below: seq<string>)
    requires Qualifies(fs, root)
    requires forall k :: 0 < k <= |below| ==> PassesOver(fs, root + below[..k])
    ensures GetMonoRepo(fs, root + below) == Ok(Some(MonoRepo(root, fs[root].value.fields)))
    decreases |below|
  {
    if |below| == 0 {
      assert root + below == root;
    } else {
      var dir := root + below;
      var shorter := below[..|below| - 1];
      assert below[..|below|] == below;
      assert PassesOver(fs, dir);
      assert Parent(dir) == root + shorter;
      assert forall k :: 0 < k <= |shorter| ==> shorter[..k] == below[..k];
      FoundFromDescendant(fs, root, shorter);
    }
  }

  /** With no qualifying and no unreadable ancestor the search ends at the root with None. */
  lemma {:induction false} NoneWithoutRoot(fs: FileSystem, dir: Path)
    requires forall k :: 0 <= k <= |dir| ==> PassesOver(fs, dir[..k])
    ensures GetMonoRepo(fs, dir) == Ok(None)
    decreases |dir|
  {
    assert dir[..|dir|] == dir;
    if dir != [] {
      var up := Parent(dir);
      assert forall k :: 0 <= k <= |up| ==> up[..k] == dir[..k];
      NoneWithoutRoot(fs, up);
    }
  }

  /** Only `Array.isArray` is checked, so an empty `workspaces` array still marks a root. */
  lemma EmptyWorkspacesQualify(dir: Path, fields: map<string, Json>)
    requires fields == map["private" := JBool(true), "workspaces" := JArray([])]
    ensures GetMonoRepo(map[dir := Some(JObject(fields))], dir) == Ok(Some(MonoRepo(dir, fields)))
  {
  }

  /** A `private` field that is merely truthy (here the string "true") does not qualify. */
  lemma PrivateMustBeTrue(fs: FileSystem, dir: Path)
    requires dir in fs && fs[dir].Some? && fs[dir].value.JObject?
    requires "private" in fs[dir].value.fields && fs[dir].value.fields["private"] == JString("true")
    ensures GetMonoRepo(fs, dir).Ok? && GetMonoRepo(fs, dir).value.Some? ==>
              GetMonoRepo(fs, dir).value.value.dir != dir
  {
  }
}
