/**
  * The `run` command (src/commands/run.ts): run an npm script through
  * `yarn run` in every selected package that declares it, one package at a
  * time, stopping at the first script that exits with a non-zero code.
  */
module RunCommand {

  import opened Wrappers
  import opened Strings
  import opened Logger
  import opened Packages
  import opened Messages
  import opened Colors
  import MonoRepo

  /** `const [script, ...forwardedArgs] = values`: no script when there are no values. */
  function ScriptName(values: seq<string>): (script: Option<string>)
    ensures script.None? <==> |values| == 0
    ensures script.Some? ==> script.value == values[0]
  {
    if |values| == 0 then None else Some(values[0])
  }

  /** The arguments after the script, forwarded to it. */
  function ForwardedArgs(values: seq<string>): (args: seq<string>)
    ensures |values| > 0 ==> [values[0]] + args == values
    ensures |values| == 0 ==> args == []
  {
    if |values| == 0 then [] else values[1..]
  }

  /** `p.scripts && Object.keys(p.scripts).includes(script)`. */
  predicate DeclaresScript(p: Package, script: Option<string>)
  {
    script.Some? && p.scripts.Some? && script.value in p.scripts.value
  }

  /** The packages that declare the script, in their original order. */
  function Declaring(packages: seq<Package>, script: Option<string>): (r: seq<Package>)
    ensures forall p :: p in r <==> p in packages && DeclaresScript(p, script)
    ensures |r| <= |packages|
    decreases |packages|
  {
    if |packages| == 0 then []
    else (if DeclaresScript(packages[0], script) then [packages[0]] else []) + Declaring(packages[1..], script)
  }

  /**
    * Selecting the declaring packages commutes with concatenation, so the
    * targets keep the order of the packages they come from.
    */
  lemma {:induction false} DeclaringAppend(xs: seq<Package>, ys: seq<Package>, script: Option<string>)
    ensures Declaring(xs + ys, script) == Declaring(xs, script) + Declaring(ys, script)
    decreases |xs|
  {
    if |xs| == 0 {
      assert xs + ys == ys;
    } else {
      assert (xs + ys)[0] == xs[0];
      assert (xs + ys)[1..] == xs[1..] + ys;
      DeclaringAppend(xs[1..], ys, script);
    }
  }

  /** The selected packages that declare the script, in filter order. */
  function RunTargets(packages: seq<Package>, filter: string, script: Option<string>): seq<Package>
  {
    Declaring(FilterPackages(packages, filter), script)
  }

  /**
    * A package is a target exactly when the filter selects it and its
    * `scripts` declares the script; without a script there is no target.
    */
  lemma RunTargetMembers(packages: seq<Package>, filter: string, script: Option<string>, p: Package)
    ensures p in RunTargets(packages, filter, script) <==>
              p in packages && Selected(FilterTokens(filter), p.name) && DeclaresScript(p, script)
    ensures script.None? ==> RunTargets(packages, filter, script) == []
  {
    FilterMembers(packages, filter, p);
    NothingDeclaresNoScript(FilterPackages(packages, filter));
  }

  /** Without a script name no package declares the script. */
  lemma {:induction false} NothingDeclaresNoScript(packages: seq<Package>)
    ensures Declaring(packages, None) == []
    decreases |packages|
  {
    if |packages| > 0 {
      NothingDeclaresNoScript(packages[1..]);
    }
  }

  /** The shell command run in each package. */
  function CommandString(script: string, args: seq<string>): string
  {
    "yarn run " + script + " " + Join(args, " ")
  }

  /** One child process: the command and the directory it runs in. */
  datatype Spawn = Spawn(command: string, cwd: string)

  /** The error logged when a script exits with a non-zero code. */
  function ExitMessage(script: string, name: string, code: int): string
  {
    "Script " + script + " in package " + name + " exited with code " + IntToString(code) + " \U{1F915}"
  }

  /** The log line of a script that exited with code 0. */
  function DoneMessage(script: string, name: string): string
  {
    "Script " + script + " in package " + name + " is done \U{1F389}"
  }

  /** The last line of a run in which every script succeeded. */
  const AllDone: string := "All done \U{270C}\U{FE0F}"

  /**
    * The first of the first `n` executors whose exit code is non-zero;
    * `exitCode(k)` is the code the k-th child process closes with.
    */
  function FirstFailure(exitCode: nat -> int, n: nat): (r: Option<nat>)
    ensures r.Some? ==> r.value < n && exitCode(r.value) != 0
    ensures r.Some? ==> forall k :: 0 <= k < r.value ==> exitCode(k) == 0
    ensures r.None? ==> forall k :: 0 <= k < n ==> exitCode(k) == 0
  {
    if n == 0 then None
    else
      match FirstFailure(exitCode, n - 1)
      case Some(k) => Some(k)
      case None => if exitCode(n - 1) != 0 then Some(n - 1) else None
  }

  /** How many executors start: up to and including the first failure, all of them otherwise. */
  function ExecutedCount(exitCode: nat -> int, n: nat): (c: nat)
    ensures c <= n
    ensures forall k :: 0 <= k < c - 1 ==> exitCode(k) == 0
    ensures c < n ==> c > 0 && exitCode(c - 1) != 0
  {
    match FirstFailure(exitCode, n)
    case Some(k) => k + 1
    case None => n
  }

  /** What the handler's logger reports when the k-th executor's child closes. */
  function ExecutorLog(script: string, p: Package, code: int): LogCall
  {
    if code != 0 then LogCall(Error, ExitMessage(script, p.name, code))
    else LogCall(Log, DoneMessage(script, p.name))
  }

  /** The prefix of the logger for one package's output, styled with the next colour. */
  function PackagePrefix(p: Package): string
  {
    "[" + p.name + "]: "
  }

  /** The styled prefix of the k-th executor, given the cycler's index before the first. */
  function PrefixAt(start: nat, k: nat, p: Package): Styled
    requires start < |ChalkColors|
  {
    Styled(ChalkColors[IndexAfter(start, k)], PackagePrefix(p))
  }

  /** The first `n` executors each spawned the command in their target's directory. */
  ghost predicate Spawned(targets: seq<Package>, script: string, args: seq<string>, spawns: seq<Spawn>, n: nat)
  {
    && n <= |targets| && |spawns| == n
    && forall k :: 0 <= k < n ==> spawns[k] == Spawn(CommandString(script, args), targets[k].dir)
  }

  /** The first `n` executors logged the outcome of their target's exit code. */
  ghost predicate Logged(targets: seq<Package>, script: string, exitCode: nat -> int, logs: seq<LogCall>, n: nat)
  {
    && n <= |targets| && |logs| == n
    && forall k :: 0 <= k < n ==> logs[k] == ExecutorLog(script, targets[k], exitCode(k))
  }

  /** The first `n` executors styled their prefix with the k-th colour from `start`. */
  ghost predicate Prefixed(start: nat, targets: seq<Package>, prefixes: seq<Styled>, n: nat)
    requires start < |ChalkColors|
  {
    && n <= |targets| && |prefixes| == n
    && forall k :: 0 <= k < n ==> prefixes[k] == PrefixAt(start, k, targets[k])
  }

  /** The first `n` executors have run. */
  ghost predicate Ran(start: nat, targets: seq<Package>, script: string, args: seq<string>, exitCode: nat -> int,
                      spawns: seq<Spawn>, prefixes: seq<Styled>, logs: seq<LogCall>, n: nat)
    requires start < |ChalkColors|
  {
    && Spawned(targets, script, args, spawns, n)
    && Prefixed(start, targets, prefixes, n)
    && Logged(targets, script, exitCode, logs, n)
  }

  /** Spawning the next executor extends the spawns by one. */
  lemma SpawnedStep(targets: seq<Package>, script: string, args: seq<string>, spawns: seq<Spawn>, n: nat)
    requires n < |targets| && Spawned(targets, script, args, spawns, n)
    ensures Spawned(targets, script, args, spawns + [Spawn(CommandString(script, args), targets[n].dir)], n + 1)
  {
  }

  /** Styling the next executor's prefix extends the prefixes by one. */
  lemma PrefixedStep(start: nat, targets: seq<Package>, prefixes: seq<Styled>, n: nat)
    requires start < |ChalkColors| && n < |targets| && Prefixed(start, targets, prefixes, n)
    ensures Prefixed(start, targets, prefixes + [PrefixAt(start, n, targets[n])], n + 1)
  {
  }

  /** Logging the next executor's outcome extends the logs by one. */
  lemma LoggedStep(targets: seq<Package>, script: string, exitCode: nat -> int, logs: seq<LogCall>, n: nat)
    requires n < |targets| && Logged(targets, script, exitCode, logs, n)
    ensures Logged(targets, script, exitCode, logs + [ExecutorLog(script, targets[n], exitCode(n))], n + 1)
  {
  }

  /**
    * The loop over the executors, one at a time: start the child process,
    * style the package's log prefix with the next colour, wait for the
    * child to close and log its outcome; a non-zero code rejects the run.
    */
  method Execute(cycler: ColorCycler, targets: seq<Package>, script: string, args: seq<string>, exitCode: nat -> int)
    returns (spawns: seq<Spawn>, prefixes: seq<Styled>, logs: seq<LogCall>, failure: Option<int>)
    requires cycler.Valid()
    modifies cycler
    ensures cycler.Valid()
    ensures old(cycler.index) < |ChalkColors|
    ensures Ran(old(cycler.index), targets, script, args, exitCode, spawns, prefixes, logs,
                ExecutedCount(exitCode, |targets|))
    ensures cycler.index == IndexAfter(old(cycler.index), ExecutedCount(exitCode, |targets|))
    ensures match FirstFailure(exitCode, |targets|)
            case None => failure.None?
            case Some(k) => failure == Some(exitCode(k))
  {
    ghost var start := cycler.index;
    var command := CommandString(script, args);
    spawns, prefixes, logs := [], [], [];
    var k := 0;
    while k < |targets|
      invariant 0 <= k <= |targets|
      invariant cycler.Valid()
      invariant FirstFailure(exitCode, k).None?
      invariant Spawned(targets, script, args, spawns, k)
      invariant Prefixed(start, targets, prefixes, k)
      invariant Logged(targets, script, exitCode, logs, k)
      invariant cycler.index == IndexAfter(start, k)
    {
      var p := targets[k];
      SpawnedStep(targets, script, args, spawns, k);
      spawns := spawns + [Spawn(command, p.dir)];
      var styled := cycler.ApplyRandomColor(PackagePrefix(p));
      assert styled == PrefixAt(start, k, p);
      PrefixedStep(start, targets, prefixes, k);
      prefixes := prefixes + [styled];
      var code := exitCode(k);
      LoggedStep(targets, script, exitCode, logs, k);
      logs := logs + [ExecutorLog(script, p, code)];
      if code != 0 {
        FailureAt(exitCode, k, |targets|);
        failure := Some(code);
        return;
      }
      assert FirstFailure(exitCode, k + 1).None?;
      k := k + 1;
    }
    AllDoneIffAllSucceed(exitCode, |targets|);
    failure := None;
  }

  /** The first non-zero exit code stops the run right after its executor. */
  lemma FailureAt(exitCode: nat -> int, k: nat, n: nat)
    requires k < n && FirstFailure(exitCode, k).None? && exitCode(k) != 0
    ensures FirstFailure(exitCode, n) == Some(k)
    ensures ExecutedCount(exitCode, n) == k + 1
  {
    assert FirstFailure(exitCode, k + 1) == Some(k);
    FailureStaysFirst(exitCode, k + 1, n);
  }

  /** A failure among the first `i` executors stays the first one when more executors follow. */
  lemma {:induction false} FailureStaysFirst(exitCode: nat -> int, i: nat, n: nat)
    requires i <= n
    requires FirstFailure(exitCode, i).Some?
    ensures FirstFailure(exitCode, n) == FirstFailure(exitCode, i)
    decreases n - i
  {
    if i < n {
      FailureStaysFirst(exitCode, i, n - 1);
    }
  }

  /**
    * The rejection of a run: none exactly when every script exited with 0,
    * otherwise a non-zero exit code of one of the targets.
    */
  ghost predicate Verdict(targets: seq<Package>, exitCode: nat -> int, failure: Option<int>)
  {
    && (failure.None? <==> forall k :: 0 <= k < |targets| ==> exitCode(k) == 0)
    && (failure.Some? ==> exists k :: 0 <= k < |targets| && failure.value == exitCode(k) != 0)
  }

  /**
    * What a run over non-empty targets reports: the target list, then one
    * outcome per executor that ran, then "All done" exactly when every
    * script exited with 0; the rejection is as `Verdict` says.
    */
  ghost predicate Reported(targets: seq<Package>, script: string, args: seq<string>, exitCode: nat -> int,
                           logs: seq<LogCall>, spawns: seq<Spawn>, failure: Option<int>)
  {
    var c := ExecutedCount(exitCode, |targets|);
    && Spawned(targets, script, args, spawns, c)
    && |logs| == 1 + c + (if failure.None? then 1 else 0)
    && logs[0] == LogCall(Log, TargetPackagesMessage(targets))
    && Logged(targets, script, exitCode, logs[1..1 + c], c)
    && (failure.None? ==> logs[|logs| - 1] == LogCall(Log, AllDone))
    && Verdict(targets, exitCode, failure)
  }

  /** A first entry, the entries after it and a tail: where each part sits. */
  lemma Layout<T>(head: T, middle: seq<T>, tail: seq<T>)
    ensures var all := [head] + middle + tail;
            && |all| == 1 + |middle| + |tail|
            && all[0] == head
            && all[1..1 + |middle|] == middle
            && (|tail| > 0 ==> all[|all| - 1] == tail[|tail| - 1])
  {
    var all := [head] + middle + tail;
    assert forall k :: 0 <= k < |middle| ==> all[1 + k] == middle[k];
  }

  /** Without a failure nothing is rejected. */
  lemma VerdictOnSuccess(targets: seq<Package>, exitCode: nat -> int)
    requires FirstFailure(exitCode, |targets|).None?
    ensures Verdict(targets, exitCode, None)
  {
  }

  /** The first failure's exit code is the rejection. */
  lemma VerdictOnFailure(targets: seq<Package>, exitCode: nat -> int)
    requires FirstFailure(exitCode, |targets|).Some?
    ensures Verdict(targets, exitCode, Some(exitCode(FirstFailure(exitCode, |targets|).value)))
  {
    var first := FirstFailure(exitCode, |targets|).value;
    assert 0 <= first < |targets| && exitCode(first) != 0;
  }

  /** When every script succeeds, the handler's logs are the target list, the outcomes and "All done". */
  lemma ReportedOnSuccess(targets: seq<Package>, script: string, args: seq<string>, exitCode: nat -> int,
                          spawns: seq<Spawn>, outcomes: seq<LogCall>)
    requires Spawned(targets, script, args, spawns, ExecutedCount(exitCode, |targets|))
    requires Logged(targets, script, exitCode, outcomes, ExecutedCount(exitCode, |targets|))
    requires FirstFailure(exitCode, |targets|).None?
    ensures Reported(targets, script, args, exitCode,
                     [LogCall(Log, TargetPackagesMessage(targets))] + outcomes + [LogCall(Log, AllDone)], spawns, None)
  {
    Layout(LogCall(Log, TargetPackagesMessage(targets)), outcomes, [LogCall(Log, AllDone)]);
    VerdictOnSuccess(targets, exitCode);
  }

  /** When a script fails, the handler's logs are the target list and the outcomes up to that script. */
  lemma ReportedOnFailure(targets: seq<Package>, script: string, args: seq<string>, exitCode: nat -> int,
                          spawns: seq<Spawn>, outcomes: seq<LogCall>)
    requires Spawned(targets, script, args, spawns, ExecutedCount(exitCode, |targets|))
    requires Logged(targets, script, exitCode, outcomes, ExecutedCount(exitCode, |targets|))
    requires FirstFailure(exitCode, |targets|).Some?
    ensures Reported(targets, script, args, exitCode,
                     [LogCall(Log, TargetPackagesMessage(targets))] + outcomes, spawns,
                     Some(exitCode(FirstFailure(exitCode, |targets|).value)))
  {
    var header := LogCall(Log, TargetPackagesMessage(targets));
    Layout(header, outcomes, []);
    assert [header] + outcomes + [] == [header] + outcomes;
    VerdictOnFailure(targets, exitCode);
  }

  /**
    * The handler. Without a workspace root, or with no target, it warns and
    * runs nothing. Otherwise it logs the targets and runs the executors in
    * order, and reports as `Reported` says.
    */
  method RunHandler(cycler: ColorCycler, packages: seq<Package>, monoRepo: Option<MonoRepo.MonoRepo>,
                    values: seq<string>, filter: string, exitCode: nat -> int)
    returns (logs: seq<LogCall>, spawns: seq<Spawn>, failure: Option<int>)
    requires cycler.Valid()
    modifies cycler
    ensures cycler.Valid()
    ensures old(cycler.index) < |ChalkColors|
    ensures monoRepo.None? ==>
              logs == [LogCall(Warn, NoMonoRepo)] && spawns == [] && failure.None? && unchanged(cycler)
    ensures monoRepo.Some? && |RunTargets(packages, filter, ScriptName(values))| == 0 ==>
              logs == [LogCall(Warn, NoPackages)] && spawns == [] && failure.None? && unchanged(cycler)
    ensures monoRepo.Some? && |RunTargets(packages, filter, ScriptName(values))| > 0 ==>
              var targets := RunTargets(packages, filter, ScriptName(values));
              && ScriptName(values).Some?
              && Reported(targets, values[0], ForwardedArgs(values), exitCode, logs, spawns, failure)
              && (match FirstFailure(exitCode, |targets|)
                  case None => failure.None?
                  case Some(k) => failure == Some(exitCode(k)))
              && cycler.index == IndexAfter(old(cycler.index), ExecutedCount(exitCode, |targets|))
  {
    spawns := [];
    failure := None;
    if monoRepo.None? {
      logs := [LogCall(Warn, NoMonoRepo)];
      return;
    }
    var script := ScriptName(values);
    var args := ForwardedArgs(values);
    var targets := RunTargets(packages, filter, script);
    if |targets| == 0 {
      logs := [LogCall(Warn, NoPackages)];
      return;
    }
    RunTargetMembers(packages, filter, script, targets[0]);
    assert targets[0] in targets;
    logs := [LogCall(Log, TargetPackagesMessage(targets))];
    ghost var start := cycler.index;
    var prefixes, outcomes;
    spawns, prefixes, outcomes, failure := Execute(cycler, targets, script.value, args, exitCode);
    if failure.None? {
      ReportedOnSuccess(targets, script.value, args, exitCode, spawns, outcomes);
    } else {
      ReportedOnFailure(targets, script.value, args, exitCode, spawns, outcomes);
    }
    logs := logs + outcomes;
    if failure.None? {
      logs := logs + [LogCall(Log, AllDone)];
    }
  }

  /**
    * Whether "All done" is logged depends only on the exit codes: it is,
    * exactly when no executor among the targets exits with a non-zero code,
    * and then every target ran.
    */
  lemma AllDoneIffAllSucceed(exitCode: nat -> int, n: nat)
    ensures FirstFailure(exitCode, n).None? <==> forall k :: 0 <= k < n ==> exitCode(k) == 0
    ensures FirstFailure(exitCode, n).None? ==> ExecutedCount(exitCode, n) == n
  {
  }

  /** A failing executor is the last to run: the executors after it never start. */
  lemma StopsAtFirstFailure(exitCode: nat -> int, n: nat, k: nat)
    requires k < n && exitCode(k) != 0
    requires forall j :: 0 <= j < k ==> exitCode(j) == 0
    ensures ExecutedCount(exitCode, n) == k + 1
  {
  }
}
