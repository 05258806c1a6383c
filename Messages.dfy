/**
  * What the command handlers hand to their console logger, and the messages
  * they share: the two warnings and the "Target packages" listing.
  * Colouring with chalk leaves the text unchanged in this model.
  */
module Messages {

  import opened Strings
  import opened Logger
  import opened Packages

  /** One call of the handler's logger: `logger.error`, `logger.log` or `logger.warn`. */
  datatype LogCall = LogCall(level: Level, message: string)

  /** The warning when no workspace root was found. */
  const NoMonoRepo: string := "Unable to locate your mono repo \U{1F630}"

  /** The warning when the filter selects nothing. */
  const NoPackages: string := "No packages found \U{1F630}"

  /** `packages.map(p => p.name)`. */
  function Names(packages: seq<Package>): (r: seq<string>)
    ensures |r| == |packages|
    ensures forall k :: 0 <= k < |r| ==> r[k] == packages[k].name
  {
    seq(|packages|, k requires 0 <= k < |packages| => packages[k].name)
  }

  /** The heading line and the names of the target packages, one per line. */
  function TargetPackagesMessage(targets: seq<Package>): string
  {
    "Target packages:" + EOL + Join(Names(targets), EOL)
  }

  /** A header line followed by its body lines, as `header + EOL + body.join(EOL)` prints them. */
  lemma {:induction false} HeaderAndLines(header: string, body: seq<string>)
    requires '\n' !in header
    requires |body| > 0
    requires forall k :: 0 <= k < |body| ==> '\n' !in body[k]
    ensures Split(header + EOL + Join(body, EOL), '\n') == [header] + body
  {
    JoinCons(header, body, EOL);
    var all := [header] + body;
    assert forall k :: 0 <= k < |all| ==> '\n' !in all[k] by {
      forall k | 0 <= k < |all| ensures '\n' !in all[k] {
        if k > 0 { assert all[k] == body[k - 1]; }
      }
    }
    SplitJoin(all, '\n');
  }

  /** When no package name holds a line break, the listing shows each target's name on its own line, in order. */
  lemma TargetPackagesLines(targets: seq<Package>)
    requires |targets| > 0
    requires forall k :: 0 <= k < |targets| ==> '\n' !in targets[k].name
    ensures Split(TargetPackagesMessage(targets), '\n') == ["Target packages:"] + Names(targets)
  {
    HeaderAndLines("Target packages:", Names(targets));
  }
}
