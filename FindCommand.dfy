/**
  * The `find` command (src/commands/find.ts): one log call giving the
  * directory of every selected package relative to the working directory.
  */
module FindCommand {

  import opened Wrappers
  import opened Strings
  import opened Logger
  import opened Packages
  import opened Messages
  import MonoRepo

  /** The marker printed for the package whose directory is the working directory. */
  const CurrentMarker: string := ". (current)"

  /** The heading line, with the number of packages found. */
  function FindHeader(count: nat): string
  {
    "Found " + NatToString(count) + " package directories:"
  }

  /**
    * One listing line: `relative(cwd, dir)`, or the marker when that path is
    * empty. `relative` is the path library's function, left uninterpreted.
    */
  function FindLine(relative: (string, string) -> string, cwd: string, p: Package): (line: string)
    ensures |relative(cwd, p.dir)| == 0 ==> line == CurrentMarker
    ensures |relative(cwd, p.dir)| > 0 ==> line == relative(cwd, p.dir)
  {
    var path := relative(cwd, p.dir);
    if |path| == 0 then CurrentMarker else path
  }

  /** The listing lines, in the order of the packages. */
  function FindLines(relative: (string, string) -> string, cwd: string, found: seq<Package>): (r: seq<string>)
    ensures |r| == |found|
    ensures forall k :: 0 <= k < |r| ==> r[k] == FindLine(relative, cwd, found[k])
  {
    seq(|found|, k requires 0 <= k < |found| => FindLine(relative, cwd, found[k]))
  }

  /** The single message the command logs. */
  function FindMessage(relative: (string, string) -> string, cwd: string, found: seq<Package>): string
  {
    FindHeader(|found|) + EOL + Join(FindLines(relative, cwd, found), EOL)
  }

  /**
    * The handler: a warning when there is no workspace root or nothing is
    * selected, otherwise exactly one `log` call with the directories of the
    * packages `filterPackages` selects.
    */
  function FindHandler(packages: seq<Package>, monoRepo: Option<MonoRepo.MonoRepo>, cwd: string,
                       relative: (string, string) -> string, filter: string): (logs: seq<LogCall>)
    ensures |logs| == 1
    ensures monoRepo.None? ==> logs[0] == LogCall(Warn, NoMonoRepo)
    ensures monoRepo.Some? && |FilterPackages(packages, filter)| == 0 ==> logs[0] == LogCall(Warn, NoPackages)
    ensures monoRepo.Some? && |FilterPackages(packages, filter)| > 0 ==>
              logs[0] == LogCall(Log, FindMessage(relative, cwd, FilterPackages(packages, filter)))
  {
    if monoRepo.None? then [LogCall(Warn, NoMonoRepo)]
    else
      var found := FilterPackages(packages, filter);
      if |found| == 0 then [LogCall(Warn, NoPackages)]
      else [LogCall(Log, FindMessage(relative, cwd, found))]
  }

  /**
    * Read back line by line, the message is its heading, whose number is the
    * count of packages found, then one line per package in filter order:
    * the marker exactly for the packages whose relative path is empty.
    */
  lemma FindMessageLines(relative: (string, string) -> string, cwd: string, found: seq<Package>)
    requires |found| > 0
    requires forall k :: 0 <= k < |found| ==> '\n' !in relative(cwd, found[k].dir)
    ensures var lines := Split(FindMessage(relative, cwd, found), '\n');
            && |lines| == |found| + 1
            && lines[0] == FindHeader(|found|)
            && ParseNat(NatToString(|found|)) == |found|
            && (forall k :: 0 <= k < |found| ==>
                  (lines[k + 1] == CurrentMarker <==>
                     |relative(cwd, found[k].dir)| == 0 || relative(cwd, found[k].dir) == CurrentMarker))
            && (forall k :: 0 <= k < |found| && |relative(cwd, found[k].dir)| > 0 ==>
                  lines[k + 1] == relative(cwd, found[k].dir))
  {
    var body := FindLines(relative, cwd, found);
    forall k | 0 <= k < |body| ensures '\n' !in body[k] {
      assert '\n' !in CurrentMarker;
    }
    assert '\n' !in NatToString(|found|);
    HeaderAndLines(FindHeader(|found|), body);
    ParseNatToString(|found|);
  }
}
