/**
  * The `list` command (src/commands/list.ts): one log call naming every
  * selected package with its version.
  */
module ListCommand {

  import opened Wrappers
  import opened Strings
  import opened Logger
  import opened Packages
  import opened Messages
  import MonoRepo

  /** The heading line, with the number of packages found. */
  function ListHeader(count: nat): string
  {
    "Found " + NatToString(count) + " packages:"
  }

  /** One listing line: `name@version`. */
  function ListLine(p: Package): string
  {
    p.name + "@" + p.version
  }

  /** The listing lines, in the order of the packages. */
  function ListLines(found: seq<Package>): (r: seq<string>)
    ensures |r| == |found|
    ensures forall k :: 0 <= k < |r| ==> r[k] == ListLine(found[k])
  {
    seq(|found|, k requires 0 <= k < |found| => ListLine(found[k]))
  }

  /** The single message the command logs. */
  function ListMessage(found: seq<Package>): string
  {
    ListHeader(|found|) + EOL + Join(ListLines(found), EOL)
  }

  /**
    * The handler: a warning when there is no workspace root or nothing is
    * selected, otherwise exactly one `log` call with the listing of the
    * packages `filterPackages` selects.
    */
  function ListHandler(packages: seq<Package>, monoRepo: Option<MonoRepo.MonoRepo>, filter: string): (logs: seq<LogCall>)
    ensures |logs| == 1
    ensures monoRepo.None? ==> logs[0] == LogCall(Warn, NoMonoRepo)
    ensures monoRepo.Some? && |FilterPackages(packages, filter)| == 0 ==> logs[0] == LogCall(Warn, NoPackages)
    ensures monoRepo.Some? && |FilterPackages(packages, filter)| > 0 ==>
              logs[0] == LogCall(Log, ListMessage(FilterPackages(packages, filter)))
  {
    if monoRepo.None? then [LogCall(Warn, NoMonoRepo)]
    else
      var found := FilterPackages(packages, filter);
      if |found| == 0 then [LogCall(Warn, NoPackages)]
      else [LogCall(Log, ListMessage(found))]
  }

  /**
    * Read back line by line, the listing is its heading, whose number is
    * the count of packages found, and then one `name@version` line per
    * package, in filter order.
    */
  lemma ListMessageLines(found: seq<Package>)
    requires |found| > 0
    requires forall k :: 0 <= k < |found| ==> '\n' !in found[k].name && '\n' !in found[k].version
    ensures var lines := Split(ListMessage(found), '\n');
            && |lines| == |found| + 1
            && lines[0] == ListHeader(|found|)
            && forall k :: 0 <= k < |found| ==> lines[k + 1] == found[k].name + "@" + found[k].version
    ensures ParseNat(NatToString(|found|)) == |found|
  {
    var body := ListLines(found);
    forall k | 0 <= k < |body| ensures '\n' !in body[k] {
      assert body[k] == found[k].name + "@" + found[k].version;
    }
    assert '\n' !in NatToString(|found|);
    HeaderAndLines(ListHeader(|found|), body);
    ParseNatToString(|found|);
  }

  /** The listing holds a line for a package exactly when the filter selects that package. */
  lemma ListedIffSelected(packages: seq<Package>, filter: string, line: string)
    ensures line in ListLines(FilterPackages(packages, filter)) <==>
              exists p :: p in packages && Selected(FilterTokens(filter), p.name) && ListLine(p) == line
  {
    var found := FilterPackages(packages, filter);
    if line in ListLines(found) {
      var k :| 0 <= k < |found| && ListLines(found)[k] == line;
      assert found[k] in found;
      FilterMembers(packages, filter, found[k]);
    }
    if exists p :: p in packages && Selected(FilterTokens(filter), p.name) && ListLine(p) == line {
      var p :| p in packages && Selected(FilterTokens(filter), p.name) && ListLine(p) == line;
      FilterMembers(packages, filter, p);
      var k :| 0 <= k < |found| && found[k] == p;
      assert ListLines(found)[k] == line;
    }
  }
}
