/**
  * Package discovery, the package filter and install-target parsing
  * (src/packages.ts): which manifests a workspace's globs yield, which
  * packages a comma-separated `--include` expression selects, and how an
  * install target such as `@scope/name@^1.2.3` splits into a name and a
  * version spec.
  */
module Packages {

  import opened Wrappers
  import opened Strings
  import opened Json
  import MonoRepo

  /**
    * A member package: the manifest fields the tool reads (`name`, `version`,
    * the optional `scripts` object) and `__dir`, the directory its
    * `package.json` was found in.
    */
  datatype Package = Package(name: string, version: string, scripts: Option<map<string, string>>, dir: string)

  // ---------------------------------------------------------------------------
  // Discovery: from glob results to packages (getPackages, after the globs ran)
  // ---------------------------------------------------------------------------

  /** The fields `readJson` gives for one matched `package.json`. */
  datatype PackageFields = PackageFields(name: string, version: string, scripts: Option<map<string, string>>)

  datatype DiscoveryError =
    | ManifestUnreadable(path: string)
    /** `getMonoRepo` rejected: a manifest on the way up could not be read. */
    | RootSearchFailed(search: MonoRepo.SearchError)

  /** The glob results of all workspace patterns, concatenated in pattern order (the `reduce`). */
  function Flatten(globResults: seq<seq<string>>): seq<string>
  {
    if |globResults| == 0 then [] else globResults[0] + Flatten(globResults[1..])
  }

  /** Flattening commutes with concatenation: results of earlier patterns stay in front. */
  lemma {:induction false} FlattenAppend(a: seq<seq<string>>, b: seq<seq<string>>)
    ensures Flatten(a + b) == Flatten(a) + Flatten(b)
  {
    if |a| > 0 {
      assert (a + b)[1..] == a[1..] + b;
      FlattenAppend(a[1..], b);
    } else {
      assert a + b == b;
    }
  }

  /** The paths in which `node_modules` does not occur anywhere, in their original order. */
  function DropNodeModules(paths: seq<string>): (r: seq<string>)
    ensures forall k :: 0 <= k < |r| ==> !Contains(r[k], "node_modules")
    ensures forall p :: p in r <==> p in paths && !Contains(p, "node_modules")
  {
    if |paths| == 0 then []
    else if Contains(paths[0], "node_modules") then DropNodeModules(paths[1..])
    else [paths[0]] + DropNodeModules(paths[1..])
  }

  /** Dropping is done path by path, so it keeps the relative order of the survivors. */
  lemma {:induction false} DropNodeModulesAppend(a: seq<string>, b: seq<string>)
    ensures DropNodeModules(a + b) == DropNodeModules(a) + DropNodeModules(b)
  {
    if |a| > 0 {
      assert (a + b)[0] == a[0] && (a + b)[1..] == a[1..] + b;
      DropNodeModulesAppend(a[1..], b);
    } else {
      assert a + b == b;
    }
  }

  /** The manifest paths discovery loads: flattened glob results without nested dependencies. */
  function ManifestPaths(globResults: seq<seq<string>>): seq<string>
  {
    DropNodeModules(Flatten(globResults))
  }

  /** Pattern order is kept: the paths of two groups of patterns are those of each group, in turn. */
  lemma ManifestPathsAppend(a: seq<seq<string>>, b: seq<seq<string>>)
    ensures ManifestPaths(a + b) == ManifestPaths(a) + ManifestPaths(b)
  {
    FlattenAppend(a, b);
    DropNodeModulesAppend(Flatten(a), Flatten(b));
  }

  /** A path is in the flattened results iff some pattern matched it. */
  lemma {:induction false} FlattenMembers(globResults: seq<seq<string>>, p: string)
    ensures p in Flatten(globResults) <==> exists g :: 0 <= g < |globResults| && p in globResults[g]
  {
    if |globResults| > 0 {
      FlattenMembers(globResults[1..], p);
      assert forall g :: 1 <= g < |globResults| ==> globResults[g] == globResults[1..][g - 1];
      if p in Flatten(globResults[1..]) {
        var g :| 0 <= g < |globResults[1..]| && p in globResults[1..][g];
        assert p in globResults[g + 1];
      }
    }
  }

  /** A path survives discovery iff some pattern matched it and it does not contain `node_modules`. */
  lemma ManifestPathsMembers(globResults: seq<seq<string>>, p: string)
    ensures p in ManifestPaths(globResults) <==>
              (exists g :: 0 <= g < |globResults| && p in globResults[g]) && !Contains(p, "node_modules")
  {
    FlattenMembers(globResults, p);
  }

  /** `__dir`: the path with its first `/package.json` removed (`String.prototype.replace`). */
  function PackageDir(path: string): string
  {
    ReplaceFirst(path, "/package.json", "")
  }

  /** A glob match `d + "/package.json"` in which the file name occurs only at the end gives `__dir == d`. */
  lemma PackageDirOfManifest(d: string)
    requires !Contains(d + "/package.jso", "/package.json")
    ensures PackageDir(d + "/package.json") == d
  {
    var path := d + "/package.json";
    var pat := "/package.json";
    assert OccursAt(path, pat, |d|) by {
      assert path[|d|..|d| + |pat|] == pat;
    }
    var k := IndexOf(path, pat).value;
    if k < |d| {
      assert path[k..k + |pat|] == (d + "/package.jso")[k..k + |pat|];
      assert OccursAt(d + "/package.jso", pat, k);
      assert false;
    }
    assert path[..|d|] == d;
  }

  /** Discovery's result for the loaded manifests: one package per path, tagged with its directory. */
  function LoadPackages(paths: seq<string>, load: string -> Option<PackageFields>): (r: Result<seq<Package>, DiscoveryError>)
    ensures r.Ok? <==> forall k :: 0 <= k < |paths| ==> load(paths[k]).Some?
    ensures r.Ok? ==> |r.value| == |paths|
    ensures r.Ok? ==> forall k :: 0 <= k < |paths| ==>
              var f := load(paths[k]).value;
              r.value[k] == Package(f.name, f.version, f.scripts, PackageDir(paths[k]))
    ensures r.Err? ==> r.error.ManifestUnreadable? && r.error.path in paths && load(r.error.path).None?
  {
    if |paths| == 0 then Ok([])
    else match load(paths[0])
      case None => Err(ManifestUnreadable(paths[0]))
      case Some(f) =>
        match LoadPackages(paths[1..], load)
        case Err(e) => Err(e)
        case Ok(rest) =>
          assert forall k :: 1 <= k < |paths| ==> paths[k] == paths[1..][k - 1];
          Ok([Package(f.name, f.version, f.scripts, PackageDir(paths[0]))] + rest)
  }

  /** The tail of getPackages: the glob results of the workspace patterns, loaded as packages. */
  function Discover(globResults: seq<seq<string>>, load: string -> Option<PackageFields>): Result<seq<Package>, DiscoveryError>
  {
    LoadPackages(ManifestPaths(globResults), load)
  }

  /** The entries of the root manifest's `workspaces` array (the root search only accepts an array). */
  function Workspaces(root: MonoRepo.MonoRepo): seq<Json>
  {
    if "workspaces" in root.manifest && root.manifest["workspaces"].JArray? then root.manifest["workspaces"].items else []
  }

  /**
    * One glob result per workspace pattern, in pattern order; `glob(dir, w)`
    * stands for the paths `glob(resolve(dir, w, "package.json"))` matches.
    */
  function GlobResults(root: MonoRepo.MonoRepo, glob: (MonoRepo.Path, Json) -> seq<string>): (r: seq<seq<string>>)
    ensures |r| == |Workspaces(root)|
    ensures forall w :: 0 <= w < |r| ==> r[w] == glob(root.dir, Workspaces(root)[w])
  {
    seq(|Workspaces(root)|, w requires 0 <= w < |Workspaces(root)| => glob(root.dir, Workspaces(root)[w]))
  }

  /**
    * `getPackages(currentDir)`: search for the workspace root from the
    * directory, then load every manifest its workspace patterns match.
    */
  function GetPackages(fs: MonoRepo.FileSystem, currentDir: MonoRepo.Path,
                       glob: (MonoRepo.Path, Json) -> seq<string>, load: string -> Option<PackageFields>): Result<seq<Package>, DiscoveryError>
  {
    match MonoRepo.GetMonoRepo(fs, currentDir)
    case Err(e) => Err(RootSearchFailed(e))
    case Ok(None) => Ok([])
    case Ok(Some(root)) => Discover(GlobResults(root, glob), load)
  }

  /**
    * Without a workspace root there are no packages, and a failed search is
    * reported as such. Otherwise each package was read from a path one of
    * the root's workspace patterns matched, outside `node_modules`, takes
    * its name from that manifest and lives where the manifest was found.
    */
  lemma GetPackagesFromWorkspaces(fs: MonoRepo.FileSystem, currentDir: MonoRepo.Path,
                                  glob: (MonoRepo.Path, Json) -> seq<string>, load: string -> Option<PackageFields>, k: nat)
    ensures var search := MonoRepo.GetMonoRepo(fs, currentDir);
            var r := GetPackages(fs, currentDir, glob, load);
            && (search.Err? <==> r.Err? && r.error.RootSearchFailed?)
            && (search.Ok? && search.value.None? ==> r == Ok([]))
            && (search.Ok? && search.value.Some? && r.Ok? && k < |r.value| ==>
                  var root := search.value.value;
                  exists p, w :: 0 <= w < |Workspaces(root)| && p in glob(root.dir, Workspaces(root)[w]) &&
                    !Contains(p, "node_modules") && load(p).Some? &&
                    r.value[k].name == load(p).value.name && r.value[k].dir == PackageDir(p))
  {
    var search := MonoRepo.GetMonoRepo(fs, currentDir);
    var r := GetPackages(fs, currentDir, glob, load);
    if search.Ok? && search.value.Some? && r.Ok? && k < |r.value| {
      var root := search.value.value;
      var results := GlobResults(root, glob);
      var paths := ManifestPaths(results);
      var p := paths[k];
      ManifestPathsMembers(results, p);
      var w :| 0 <= w < |results| && p in results[w];
      assert p in glob(root.dir, Workspaces(root)[w]);
    }
  }

  /** No discovered package lives under a `node_modules` directory. */
  lemma DiscoverSkipsNodeModules(globResults: seq<seq<string>>, load: string -> Option<PackageFields>, k: nat)
    requires Discover(globResults, load).Ok?
    requires k < |Discover(globResults, load).value|
    ensures var paths := ManifestPaths(globResults);
            |paths| == |Discover(globResults, load).value| &&
            !Contains(paths[k], "node_modules") &&
            Discover(globResults, load).value[k].dir == PackageDir(paths[k])
  {
  }

  // ---------------------------------------------------------------------------
  // filterPackages
  // ---------------------------------------------------------------------------

  /** A token containing `*` is a wildcard; any other token names a package exactly. */
  predicate IsWildcard(token: string)
  {
    '*' in token
  }

  /** The comma-separated tokens of an `--include` expression. */
  function FilterTokens(filter: string): seq<string>
  {
    Split(filter, ',')
  }

  /** The tokens without `*` (`packageNames`). */
  function NameTokens(tokens: seq<string>): (r: seq<string>)
    ensures forall t :: t in r <==> t in tokens && !IsWildcard(t)
  {
    if |tokens| == 0 then []
    else if IsWildcard(tokens[0]) then NameTokens(tokens[1..])
    else [tokens[0]] + NameTokens(tokens[1..])
  }

  /** The tokens with `*` (`packageWildcards`). */
  function WildcardTokens(tokens: seq<string>): (r: seq<string>)
    ensures forall t :: t in r <==> t in tokens && IsWildcard(t)
  {
    if |tokens| == 0 then []
    else if IsWildcard(tokens[0]) then [tokens[0]] + WildcardTokens(tokens[1..])
    else WildcardTokens(tokens[1..])
  }

  /** A wildcard token without its last character (only a trailing `*` is meant to be supported). */
  function Stem(wildcard: string): string
    requires IsWildcard(wildcard)
  {
    wildcard[..|wildcard| - 1]
  }

  /** The name equals one of the tokens that contain no `*`. */
  predicate ExactMatch(tokens: seq<string>, name: string)
  {
    name in NameTokens(tokens)
  }

  /** The name starts with the stem of one of the wildcard tokens. */
  predicate WildcardMatch(tokens: seq<string>, name: string)
  {
    exists w :: w in WildcardTokens(tokens) && Stem(w) <= name
  }

  /** The shortcut: the token `*` appears on its own. */
  predicate MatchesAll(tokens: seq<string>)
  {
    "*" in WildcardTokens(tokens)
  }

  /** Whether a package name is selected by the tokens in any of the three ways. */
  predicate Selected(tokens: seq<string>, name: string)
  {
    MatchesAll(tokens) || ExactMatch(tokens, name) || WildcardMatch(tokens, name)
  }

  datatype Pass = ExactPass | WildcardPass

  predicate Keeps(pass: Pass, tokens: seq<string>, name: string)
  {
    match pass
    case ExactPass => ExactMatch(tokens, name)
    case WildcardPass => WildcardMatch(tokens, name)
  }

  /** The indices from `i` on whose packages one of the two `packages.filter` calls keeps, in order. */
  function PassIndices(packages: seq<Package>, tokens: seq<string>, pass: Pass, i: nat): (r: seq<nat>)
    requires i <= |packages|
    ensures forall a :: 0 <= a < |r| ==> i <= r[a] < |packages|
    ensures forall a, b :: 0 <= a < b < |r| ==> r[a] < r[b]
    ensures forall k :: i <= k < |packages| ==> (k in r <==> Keeps(pass, tokens, packages[k].name))
    decreases |packages| - i
  {
    if i == |packages| then []
    else
      var rest := PassIndices(packages, tokens, pass, i + 1);
      if Keeps(pass, tokens, packages[i].name) then [i] + rest else rest
  }

  /** No element occurs twice. */
  predicate Distinct(s: seq<nat>)
  {
    forall a, b :: 0 <= a < b < |s| ==> s[a] != s[b]
  }

  /** `Array.from(new Set(s))`: the first occurrence of every element, in order. */
  function Dedup(s: seq<nat>): (r: seq<nat>)
    ensures Distinct(r)
    ensures forall x :: x in r <==> x in s
  {
    if |s| == 0 then []
    else
      var d := Dedup(s[..|s| - 1]);
      assert forall x :: x in s <==> x in s[..|s| - 1] || x == s[|s| - 1] by {
        assert s == s[..|s| - 1] + [s[|s| - 1]];
      }
      if s[|s| - 1] in d then d else d + [s[|s| - 1]]
  }

  /** The elements of `s` that are not in `e`, in order. */
  function Without(s: seq<nat>, e: seq<nat>): (r: seq<nat>)
    ensures forall x :: x in r <==> x in s && x !in e
  {
    if |s| == 0 then []
    else
      assert s == s[..|s| - 1] + [s[|s| - 1]];
      Without(s[..|s| - 1], e) + (if s[|s| - 1] in e then [] else [s[|s| - 1]])
  }

  /** A set built from a duplicate-free list gives back that list. */
  lemma {:induction false} DedupDistinct(s: seq<nat>)
    requires Distinct(s)
    ensures Dedup(s) == s
  {
    if |s| > 0 {
      var init := s[..|s| - 1];
      DedupDistinct(init);
      assert s[|s| - 1] !in init;
      assert init + [s[|s| - 1]] == s;
    }
  }

  /** A set built from `e` followed by `w` keeps `e` and then the new elements of `w`. */
  lemma {:induction false} DedupConcat(e: seq<nat>, w: seq<nat>)
    requires Distinct(e) && Distinct(w)
    ensures Dedup(e + w) == e + Without(w, e)
  {
    if |w| == 0 {
      assert e + w == e;
      DedupDistinct(e);
    } else {
      var w' := w[..|w| - 1];
      var x := w[|w| - 1];
      assert Distinct(w');
      DedupConcat(e, w');
      assert (e + w)[..|e + w| - 1] == e + w';
      assert x !in w';
    }
  }

  /** `filterPackages`, by index: which input positions are returned, in output order. */
  function FilterIndices(packages: seq<Package>, filter: string): (r: seq<nat>)
    ensures forall a :: 0 <= a < |r| ==> r[a] < |packages|
    ensures Distinct(r)
    ensures forall k :: 0 <= k < |packages| ==> (k in r <==> Selected(FilterTokens(filter), packages[k].name))
  {
    var tokens := FilterTokens(filter);
    if MatchesAll(tokens) then
      var all := seq(|packages|, k => k);
      assert forall k :: 0 <= k < |packages| ==> all[k] == k && k in all by {
        forall k | 0 <= k < |packages| ensures all[k] == k && k in all {
          assert all[k] in all;
        }
      }
      all
    else
      var exact := PassIndices(packages, tokens, ExactPass, 0);
      var wild := PassIndices(packages, tokens, WildcardPass, 0);
      var r := Dedup(exact + wild);
      assert forall a :: 0 <= a < |r| ==> r[a] in exact + wild;
      r
  }

  /** The packages at the given positions. */
  function Pick(packages: seq<Package>, indices: seq<nat>): (r: seq<Package>)
    requires forall a :: 0 <= a < |indices| ==> indices[a] < |packages|
    ensures |r| == |indices|
    ensures forall a :: 0 <= a < |indices| ==> r[a] == packages[indices[a]]
  {
    seq(|indices|, a requires 0 <= a < |indices| => packages[indices[a]])
  }

  /** `filterPackages(packages, filter)`. */
  function FilterPackages(packages: seq<Package>, filter: string): seq<Package>
  {
    Pick(packages, FilterIndices(packages, filter))
  }

  /** Strictly increasing: in input order, each position once. */
  predicate Increasing(s: seq<nat>)
  {
    forall a, b :: 0 <= a < b < |s| ==> s[a] < s[b]
  }

  /**
    * Positions `r[..m]` are exact-name matches and `r[m..]` wildcard-only
    * matches, each part in input order.
    */
  predicate SplitsExactThenWildcard(packages: seq<Package>, tokens: seq<string>, r: seq<nat>, m: int)
  {
    && 0 <= m <= |r|
    && (forall a :: 0 <= a < |r| ==> r[a] < |packages|)
    && Increasing(r[..m]) && Increasing(r[m..])
    && (forall a :: 0 <= a < m ==> ExactMatch(tokens, packages[r[a]].name))
    && (forall a :: m <= a < |r| ==>
          WildcardMatch(tokens, packages[r[a]].name) && !ExactMatch(tokens, packages[r[a]].name))
  }

  /**
    * The order of the filter's output: with the `*` token every package in
    * input order; otherwise the exact-name matches in input order, then the
    * wildcard matches that were not exact matches, again in input order.
    */
  lemma FilterOrder(packages: seq<Package>, filter: string)
    ensures var tokens := FilterTokens(filter);
            var r := FilterIndices(packages, filter);
            if MatchesAll(tokens) then r == seq(|packages|, k => k)
            else exists m :: SplitsExactThenWildcard(packages, tokens, r, m)
  {
    var tokens := FilterTokens(filter);
    if !MatchesAll(tokens) {
      var exact := PassIndices(packages, tokens, ExactPass, 0);
      var wild := PassIndices(packages, tokens, WildcardPass, 0);
      var rest := Without(wild, exact);
      var r := FilterIndices(packages, filter);
      DedupConcat(exact, wild);
      assert r == exact + rest;
      WithoutIncreasing(wild, exact);
      assert r[..|exact|] == exact && r[|exact|..] == rest;
      forall a | |exact| <= a < |r|
        ensures WildcardMatch(tokens, packages[r[a]].name) && !ExactMatch(tokens, packages[r[a]].name)
      {
        assert r[a] in rest;
      }
      assert SplitsExactThenWildcard(packages, tokens, r, |exact|);
    }
  }

  /** Removing elements from an increasing list leaves it increasing. */
  lemma {:induction false} WithoutIncreasing(s: seq<nat>, e: seq<nat>)
    requires Increasing(s)
    ensures Increasing(Without(s, e))
    ensures forall x :: x in Without(s, e) ==> x in s
  {
    if |s| > 0 {
      var init := s[..|s| - 1];
      WithoutIncreasing(init, e);
      var w := Without(init, e);
      var x := s[|s| - 1];
      forall y | y in w ensures y < x {
        var a :| 0 <= a < |init| && init[a] == y;
      }
      assert s == init + [x];
      if x !in e {
        var r := w + [x];
        forall a, b | 0 <= a < b < |r| ensures r[a] < r[b] {
          if b == |w| { assert r[a] in w; }
        }
      }
    }
  }

  /** With the token `*` anywhere in the expression, the filter returns its input unchanged. */
  lemma FilterStar(packages: seq<Package>, filter: string)
    requires "*" in FilterTokens(filter)
    ensures FilterPackages(packages, filter) == packages
  {
  }

  /** A package is returned iff its name is selected (by `*`, by an exact token or by a wildcard stem). */
  lemma FilterMembers(packages: seq<Package>, filter: string, p: Package)
    ensures p in FilterPackages(packages, filter) <==> p in packages && Selected(FilterTokens(filter), p.name)
  {
    var r := FilterIndices(packages, filter);
    var out := FilterPackages(packages, filter);
    if p in out {
      var a :| 0 <= a < |out| && out[a] == p;
      assert r[a] in r;
    }
    if p in packages && Selected(FilterTokens(filter), p.name) {
      var k :| 0 <= k < |packages| && packages[k] == p;
      assert k in r;
      var a :| 0 <= a < |r| && r[a] == k;
      assert out[a] == p;
    }
  }

  /** A token without `*` never matches by prefix: `o` selects none of `one`, `two`, `three`. */
  lemma ExactTokenIsNotAPrefix()
    ensures var ps := [Package("one", "1.0.0", None, "packages/one"),
                       Package("two", "1.0.0", None, "packages/two"),
                       Package("three", "1.0.0", None, "packages/three")];
            FilterPackages(ps, "o") == []
  {
    var ps := [Package("one", "1.0.0", None, "packages/one"),
               Package("two", "1.0.0", None, "packages/two"),
               Package("three", "1.0.0", None, "packages/three")];
    assert Split("o"[1..], ',') == [""];
    assert ["o"[0]] + "" == "o";
    assert FilterTokens("o") == ["o"];
    assert NameTokens(["o"]) == ["o"];
    assert WildcardTokens(["o"]) == [];
    var r := FilterIndices(ps, "o");
    forall k | 0 <= k < 3 ensures k !in r {
      assert ps[k].name != "o";
    }
  }

  // ---------------------------------------------------------------------------
  // getPackageName / getPackageVersion
  // ---------------------------------------------------------------------------

  /** The target starts with the scope marker `@`. */
  predicate IsScoped(target: string)
  {
    |target| > 0 && target[0] == '@'
  }

  /** The target without its scope marker. */
  function Unscoped(target: string): string
  {
    if IsScoped(target) then target[1..] else target
  }

  /** `getPackageName`: the part before the version `@`, with the scope marker put back. */
  function GetPackageName(target: string): (r: string)
    ensures r <= target
    ensures IsScoped(r) <==> IsScoped(target)
    ensures forall k :: 1 <= k < |r| ==> r[k] != '@'
    ensures r == target || target[|r|] == '@'
  {
    var bare := Split(Unscoped(target), '@')[0];
    if IsScoped(target) then
      assert target == "@" + target[1..];
      "@" + bare
    else bare
  }

  /** Taking the name of a name changes nothing. */
  lemma NameIdempotent(target: string)
    ensures GetPackageName(GetPackageName(target)) == GetPackageName(target)
  {
    var n := GetPackageName(target);
    NameOfVersionless(n);
  }

  /** Without a version `@` the whole target is the name. */
  lemma NameOfVersionless(target: string)
    requires forall k :: 1 <= k < |target| ==> target[k] != '@'
    ensures GetPackageName(target) == target
  {
    var r := GetPackageName(target);
    assert |r| == 0 ==> !IsScoped(target);
  }

  /**
    * `getPackageVersion`'s split: the segment between the first and the second
    * `@` after the scope marker, or None when there is no version `@`.
    */
  function VersionSegment(target: string): (r: Option<string>)
    ensures r.None? <==> forall k :: 1 <= k < |target| ==> target[k] != '@'
    ensures r.Some? ==> '@' !in r.value
  {
    var rest := Unscoped(target);
    var parts := Split(rest, '@');
    if |parts| > 1 then Some(parts[1])
    else
      assert parts[0] == rest;
      None
  }

  /** The name and the version segment of a target, counted from the target's start. */
  lemma VersionSegmentPlacement(target: string)
    requires VersionSegment(target).Some?
    ensures var name := GetPackageName(target);
            var v := VersionSegment(target).value;
            |name| < |target| && target[|name|] == '@' &&
            target[|name| + 1..] == Unscoped(target)[|Split(Unscoped(target), '@')[0]| + 1..] &&
            v <= target[|name| + 1..] &&
            (|name| + 1 + |v| == |target| || target[|name| + 1 + |v|] == '@')
  {
    var rest := Unscoped(target);
    var parts := Split(rest, '@');
    var p0 := parts[0];
    SplitTail(rest, '@');
    var after := rest[|p0| + 1..];
    assert parts[1] == Split(after, '@')[0];
    var off := if IsScoped(target) then 1 else 0;
    assert target[off..] == rest;
    var name := GetPackageName(target);
    assert |name| == off + |p0|;
    assert target[|name|] == rest[|p0|];
    assert target[|name| + 1..] == after;
  }

  /** A target built as `name@version` gives back both halves. */
  lemma NameVersionRoundTrip(name: string, version: string)
    requires forall k :: 1 <= k < |name| ==> name[k] != '@'
    requires '@' !in version
    requires |name| > 0 && (IsScoped(name) ==> |name| > 1)
    ensures GetPackageName(name + "@" + version) == name
    ensures VersionSegment(name + "@" + version) == Some(version)
  {
    var t := name + "@" + version;
    var r := GetPackageName(t);
    assert t[..|name|] == name;
    assert t[|name|] == '@';
    assert forall k :: 1 <= k < |name| ==> t[k] != '@';
    assert |r| <= |name|;
    assert r == name;
    assert VersionSegment(t).Some? by {
      assert t[|name|] == '@' && |name| >= 1;
    }
    VersionSegmentPlacement(t);
    var v := VersionSegment(t).value;
    assert t[|name| + 1..] == version;
    assert |v| == |version|;
    assert v == version;
  }

  /** A version spec: the range modifier and the version proper. */
  datatype VersionSpec = VersionSpec(modifier: string, version: string)

  /** An explicit version: no modifier if it starts with a digit, else its first character is the modifier. */
  function ParseVersion(v: string): (spec: VersionSpec)
    requires |v| > 0
    ensures spec.modifier + spec.version == v
    ensures IsDigit(v[0]) <==> spec.modifier == ""
    ensures !IsDigit(v[0]) ==> spec.modifier == [v[0]] && spec.version == v[1..]
  {
    if IsDigit(v[0]) then VersionSpec("", v) else VersionSpec(v[..1], v[1..])
  }

  /** The first position at which a package of the given name is found (`Array.prototype.find`). */
  function FindByName(packages: seq<Package>, name: string): (r: Option<nat>)
    ensures r.Some? ==> r.value < |packages| && packages[r.value].name == name
    ensures r.Some? ==> forall k :: 0 <= k < r.value ==> packages[k].name != name
    ensures r.None? ==> forall k :: 0 <= k < |packages| ==> packages[k].name != name
  {
    if |packages| == 0 then None
    else if packages[0].name == name then Some(0)
    else match FindByName(packages[1..], name)
      case None => None
      case Some(k) => Some(k + 1)
  }

  datatype VersionError = PackageDoesNotExist(name: string)

  /** The message the rejected lookup carries. */
  function VersionErrorMessage(e: VersionError): string
  {
    "NPM package '" + e.name + "' does not exist"
  }

  /**
    * `getPackageVersion`. `registry(name)` stands for `npm show <name> version`:
    * Some(output) when it printed a version, None when it exited non-zero.
    */
  function GetPackageVersion(target: string, local: seq<Package>, registry: string -> Option<string>): (r: Result<VersionSpec, VersionError>)
    ensures VersionSegment(target).Some? && |VersionSegment(target).value| > 0 ==>
              r.Ok? && r.value.modifier + r.value.version == VersionSegment(target).value
    ensures VersionSegment(target).Some? && |VersionSegment(target).value| > 0 ==>
              r == Ok(ParseVersion(VersionSegment(target).value))
    ensures (VersionSegment(target).None? || VersionSegment(target).value == "") ==>
              var name := GetPackageName(target);
              match FindByName(local, name)
              case Some(k) => r == Ok(VersionSpec("^", local[k].version))
              case None =>
                match registry(name)
                case Some(out) => r == Ok(VersionSpec("^", Trim(out)))
                case None => r == Err(PackageDoesNotExist(name))
  {
    var segment := VersionSegment(target);
    if segment.Some? && segment.value != "" then Ok(ParseVersion(segment.value))
    else
      var name := GetPackageName(target);
      match FindByName(local, name)
      case Some(k) => Ok(VersionSpec("^", local[k].version))
      case None =>
        match registry(name)
        case Some(out) => Ok(VersionSpec("^", Trim(out)))
        case None => Err(PackageDoesNotExist(name))
  }

  /** When a local package has the target's name and no version is given, the registry is never consulted. */
  lemma LocalVersionNeedsNoRegistry(target: string, local: seq<Package>, r1: string -> Option<string>, r2: string -> Option<string>)
    requires VersionSegment(target).None? || VersionSegment(target).value == ""
    requires FindByName(local, GetPackageName(target)).Some?
    ensures GetPackageVersion(target, local, r1) == GetPackageVersion(target, local, r2)
    ensures GetPackageVersion(target, local, r1).Ok?
    ensures GetPackageVersion(target, local, r1).value.modifier == "^"
  {
  }
}
