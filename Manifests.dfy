/**
  * The package manifests the `add` and `remove` commands read and write
  * back (`readJson`/`writeJson` on `<dir>/package.json`), as a store keyed
  * by package directory that records every write in order.
  */
module Manifests {

  import opened Wrappers
  import opened Json

  class ManifestStore {
    /** The parsed `package.json` of each package directory that has one. */
    var files: map<string, Manifest>
    /** The directories whose manifest was written, in the order of the writes. */
    var written: seq<string>

    constructor(initial: map<string, Manifest>)
      ensures files == initial && written == []
    {
      files := initial;
      written := [];
    }

    /** `readJson(resolve(dir, "package.json"))`: None when there is no such file. */
    method Read(dir: string) returns (m: Option<Manifest>)
      ensures dir in files <==> m.Some?
      ensures m.Some? ==> m.value == files[dir]
    {
      if dir in files {
        m := Some(files[dir]);
      } else {
        m := None;
      }
    }

    /** `writeJson(resolve(dir, "package.json"), m)`: the manifest at `dir` becomes `m`. */
    method Write(dir: string, m: Manifest)
      modifies this
      ensures files == old(files)[dir := m]
      ensures written == old(written) + [dir]
    {
      files := files[dir := m];
      written := written + [dir];
    }
  }
}
