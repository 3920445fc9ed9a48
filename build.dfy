/**
  build.rb: for each configured Ruby version, every Dockerfile found under
  that version's directory is either skipped (onbuild and alpine variants) or
  turned into an image reference, which is built and then pushed. The model
  computes the sequence of shell commands the script issues, each paired
  with the directory it runs in.
 */
module Build {
  import opened Wrappers
  import opened Text
  import opened VersionTag

  /** VERSIONS_TO_BUILD: the version directories, in build order. */
  const Versions: seq<string> := ["2.3", "2.4"]
  /** NAME: the repository every image is tagged into. */
  const Name := "callumj/ruby-jemalloc"

  /** A file found by the glob, with the text File.read would return. */
  datatype Dockerfile = Dockerfile(path: string, contents: string)

  /** A shell command line together with the directory it is run from. */
  datatype Command = Command(workDir: string, line: string)

  /**
    What the script does: the commands it issues, in order, and, when it
    dies on a Dockerfile without an `ENV RUBY_VERSION` line (`nil[1]` raises),
    the path of that file. Commands issued before the crash have already run.
   */
  datatype Plan = Plan(commands: seq<Command>, crash: Option<string>)

  /** `path.match(/(onbuild|alpine)/)`: the marker may sit anywhere in the path. */
  predicate Excluded(path: string) {
    Contains(path, "onbuild") || Contains(path, "alpine")
  }

  /** A marker anywhere in the path, the root directory included, excludes it. */
  lemma ExcludedAnywhere(before: string, marker: string, after: string)
    requires marker == "onbuild" || marker == "alpine"
    ensures Excluded(before + marker + after)
  {
    ContainsInConcat(before, marker, after);
  }

  /** Conversely, a path holding neither marker is kept. */
  lemma KeptWithoutMarkers(path: string)
    requires forall k: nat :: !OccursAt(path, "onbuild", k) && !OccursAt(path, "alpine", k)
    ensures !Excluded(path)
  {
    if Contains(path, "onbuild") {
      FirstIndex(path, "onbuild");
    }
    if Contains(path, "alpine") {
      FirstIndex(path, "alpine");
    }
  }

  /**
    The variant part of the tag: the path from the first occurrence of the
    version string on, with every "/Dockerfile" removed, then every
    "<version>/" removed, then every "/" turned into "-".
   */
  function VariantSegment(path: string, version: string): (seg: string)
    requires Contains(path, version)
    ensures '/' !in seg
  {
    var suffix := path[IndexFrom(path, version, 0).value..];
    var noFile := ReplaceAll(suffix, "/Dockerfile", "");
    var noVersion := ReplaceAll(noFile, version + "/", "");
    ReplaceCharRemoves(noVersion, '/', "-");
    ReplaceAll(noVersion, "/", "-")
  }

  /**
    The trailing "/Dockerfile" is the only one removed from a text that holds
    no other: its '/' occurs only at its front, so no match straddles the join.
   */
  lemma FileSuffixRemoved(w: string, d: string)
    requires d == "/Dockerfile" && !Contains(w, d)
    ensures ReplaceAll(w + d, d, "") == w
  {
    var s := w + d;
    forall k: nat | k < |w| ensures !OccursAt(s, d, k) {
      if k + |d| <= |w| {
        assert s[k..k + |d|] == w[k..k + |d|];
        assert !OccursAt(w, d, k);
      } else {
        // the '/' that opens the suffix falls strictly inside this window
        assert s[k..k + |d|][|w| - k] == s[|w|] == '/' != d[|w| - k];
      }
    }
    assert OccursAt(s, d, |w|) by { assert s[|w|..|w| + |d|] == d; }
    assert s[|w| + |d|..] == [];
    AbsentByLead(s[|w| + |d|..], d);
    ReplaceOnce(s, d, "", |w|);
    assert s[..|w|] == w;
  }

  /**
    The usual layout: for `<root>/<v>/<sub>/Dockerfile`, where the first
    occurrence of the version `v` is its own directory, the segment is `sub`
    with every '/' turned into '-'. It takes that `sub` holds no "<v>/" and
    that "<v>/<sub>" holds no "/Dockerfile", not even across its middle '/'.
   */
  lemma SegmentOfLayout(root: string, v: string, sub: string)
    requires FirstAt(root + "/" + v + "/" + sub + "/Dockerfile", v, |root| + 1)
    requires !Contains(v + "/" + sub, "/Dockerfile")
    requires !Contains(sub, v + "/")
    ensures Contains(root + "/" + v + "/" + sub + "/Dockerfile", v)
    ensures VariantSegment(root + "/" + v + "/" + sub + "/Dockerfile", v) == ReplaceAll(sub, "/", "-")
  {
    var path := root + "/" + v + "/" + sub + "/Dockerfile";
    FirstAtIsIndex(path, v, |root| + 1);
    var w := v + "/" + sub;
    assert path[|root| + 1..] == w + "/Dockerfile";
    FileSuffixRemoved(w, "/Dockerfile");
    VersionDirRemoved(v, sub);
  }

  /** The second gsub removes the leading "<v>/" when no other follows it. */
  lemma VersionDirRemoved(v: string, sub: string)
    requires !Contains(sub, v + "/")
    ensures ReplaceAll(v + "/" + sub, v + "/", "") == sub
  {
    var w := v + "/" + sub;
    assert OccursAt(w, v + "/", 0) by { assert w[..|v + "/"|] == v + "/"; }
    assert w[|v + "/"|..] == sub;
    ReplaceOnce(w, v + "/", "", 0);
    assert w[..0] + "" + sub == sub;
  }

  /**
    A Dockerfile directly in the version directory, `<root>/<v>/Dockerfile`,
    gets the version itself as its segment, with any '/' turned into '-'.
   */
  lemma SegmentOfVersionLayout(root: string, v: string)
    requires FirstAt(root + "/" + v + "/Dockerfile", v, |root| + 1)
    requires !Contains(v, "/Dockerfile")
    ensures Contains(root + "/" + v + "/Dockerfile", v)
    ensures VariantSegment(root + "/" + v + "/Dockerfile", v) == ReplaceAll(v, "/", "-")
  {
    var path := root + "/" + v + "/Dockerfile";
    FirstAtIsIndex(path, v, |root| + 1);
    assert path[|root| + 1..] == v + "/Dockerfile";
    FileSuffixRemoved(v, "/Dockerfile");
    assert !Contains(v, v + "/");
    ReplaceAbsent(v, v + "/", "");
  }

  /** `"#{NAME}:#{full_version}-#{base}"` */
  function ImageName(fullVersion: string, segment: string): string {
    Name + ":" + fullVersion + "-" + segment
  }

  /**
    The image reference splits back into its parts: the repository name
    holds no ':', so the first ':' ends it and everything after is the tag
    "<full version>-<segment>".
   */
  lemma ImageNameSplits(fullVersion: string, segment: string)
    ensures var image := ImageName(fullVersion, segment);
      IndexFrom(image, ":", 0) == Some(|Name|) &&
      image[..|Name|] == Name && image[|Name| + 1..] == fullVersion + "-" + segment
  {
    NameHasNoColon(Name);
    var tag := fullVersion + "-" + segment;
    assert ImageName(fullVersion, segment) == Name + ":" + tag;
    SplitAtColon(Name, tag);
  }

  lemma NameHasNoColon(n: string)
    requires n == Name
    ensures ':' !in n
  {
  }

  /** A colon-free prefix is cut off at the first ':'. */
  lemma SplitAtColon(n: string, rest: string)
    requires ':' !in n
    ensures var s := n + ":" + rest;
      IndexFrom(s, ":", 0) == Some(|n|) && s[..|n|] == n && s[|n| + 1..] == rest
  {
    var s := n + ":" + rest;
    forall k: nat | k < |n| ensures !OccursAt(s, ":", k) {
      assert s[k..k + 1] == [n[k]];
    }
    assert OccursAt(s, ":", |n|);
    assert s[..|n|] == n;
    assert s[|n| + 1..] == rest;
  }

  /** Index of the last occurrence of `c` in `s`. */
  function LastIndexOf(s: string, c: char): (r: Option<nat>)
    decreases |s|
    ensures r.Some? ==> r.value < |s| && s[r.value] == c && c !in s[r.value + 1..]
    ensures r.None? ==> c !in s
  {
    if s == [] then None
    else if s[|s| - 1] == c then Some(|s| - 1)
    else
      var r := LastIndexOf(s[..|s| - 1], c);
      assert s == s[..|s| - 1] + [s[|s| - 1]];
      r
  }

  /** File.dirname on a normalised path: everything before the last '/'. */
  function WorkDir(path: string): string {
    match LastIndexOf(path, '/')
    case None => "."
    case Some(k) => if k == 0 then "/" else path[..k]
  }

  /** The directory of `<dir>/Dockerfile` is `<dir>`. */
  lemma WorkDirOfDockerfile(dir: string)
    requires dir != []
    ensures WorkDir(dir + "/Dockerfile") == dir
  {
    var path := dir + "/Dockerfile";
    var k := LastIndexOf(path, '/').value;
    assert path[|dir|] == '/';
    assert forall j :: k < j < |path| ==> path[j] == path[k + 1..][j - k - 1];
    assert k >= |dir|;
    assert forall j :: |dir| < j < |path| ==> path[j] == "/Dockerfile"[j - |dir|];
    assert k <= |dir|;
    assert path[..k] == dir;
  }

  /** The two commands run in the Dockerfile's directory: build, then push, unconditionally. */
  function BuildAndPush(dir: string, image: string): seq<Command> {
    [Command(dir, "docker build -t " + image + " ."), Command(dir, "docker push " + image)]
  }

  /** What one globbed file contributes: nothing, two commands, or a crash. */
  function FileStep(version: string, f: Dockerfile): Plan
    requires Contains(f.path, version)
  {
    if Excluded(f.path) then Plan([], None)
    else match ExtractVersion(f.contents)
      case None => Plan([], Some(f.path))
      case Some(full) => Plan(BuildAndPush(WorkDir(f.path), ImageName(full, VariantSegment(f.path, version))), None)
  }

  /** Running `p` and then, unless it crashed, `q`. */
  function Then(p: Plan, q: Plan): Plan {
    if p.crash.Some? then p else Plan(p.commands + q.commands, q.crash)
  }

  lemma ThenAssociative(p: Plan, q: Plan, r: Plan)
    ensures Then(Then(p, q), r) == Then(p, Then(q, r))
  {
  }

  /** Running the steps one after another until one crashes (an uncaught exception). */
  function Sequence(steps: seq<Plan>): Plan
    decreases |steps|
  {
    if steps == [] then Plan([], None)
    else Then(Sequence(steps[..|steps| - 1]), steps[|steps| - 1])
  }

  /** All commands of the steps, as if none crashed. */
  function Flatten(steps: seq<Plan>): seq<Command>
    decreases |steps|
  {
    if steps == [] then [] else Flatten(steps[..|steps| - 1]) + steps[|steps| - 1].commands
  }

  /** Steps run in order: running `a + b` is running `a`, then, unless it crashed, `b`. */
  lemma {:induction false} SequenceAppend(a: seq<Plan>, b: seq<Plan>)
    ensures Sequence(a + b) == Then(Sequence(a), Sequence(b))
    decreases |b|
  {
    if b == [] {
      assert a + b == a;
      assert Sequence(a).commands + [] == Sequence(a).commands;
    } else {
      var n := |b| - 1;
      SequenceAppend(a, b[..n]);
      assert (a + b)[..|a + b| - 1] == a + b[..n];
      ThenAssociative(Sequence(a), Sequence(b[..n]), b[n]);
    }
  }

  /**
    A run completes exactly when no step crashes, and then it issues every
    step's commands in order.
   */
  lemma {:induction false} SequenceComplete(steps: seq<Plan>)
    ensures Sequence(steps).crash.None? <==> forall i :: 0 <= i < |steps| ==> steps[i].crash.None?
    ensures Sequence(steps).crash.None? ==> Sequence(steps).commands == Flatten(steps)
    decreases |steps|
  {
    if steps != [] {
      var n := |steps| - 1;
      SequenceComplete(steps[..n]);
      assert forall i :: 0 <= i < n ==> steps[..n][i] == steps[i];
    }
  }

  /**
    A run that crashes stops at the first crashing step, after issuing the
    commands of every step before it.
   */
  lemma {:induction false} SequenceCrash(steps: seq<Plan>)
    requires Sequence(steps).crash.Some?
    ensures exists i :: (0 <= i < |steps| && steps[i].crash.Some? &&
      (forall j :: 0 <= j < i ==> steps[j].crash.None?) &&
      Sequence(steps) == Plan(Flatten(steps[..i]) + steps[i].commands, steps[i].crash))
    decreases |steps|
  {
    var n := |steps| - 1;
    var init := steps[..n];
    assert Sequence(steps) == Then(Sequence(init), steps[n]);
    if Sequence(init).crash.Some? {
      SequenceCrash(init);
      var i :| 0 <= i < |init| && init[i].crash.Some? &&
        (forall j :: 0 <= j < i ==> init[j].crash.None?) &&
        Sequence(init) == Plan(Flatten(init[..i]) + init[i].commands, init[i].crash);
      assert steps[..i] == init[..i] && steps[i] == init[i];
      assert forall j :: 0 <= j < i ==> steps[j] == init[j];
      assert Sequence(steps) == Plan(Flatten(steps[..i]) + steps[i].commands, steps[i].crash);
    } else {
      SequenceComplete(init);
      assert forall j :: 0 <= j < n ==> steps[j] == init[j];
      assert Sequence(steps) == Plan(Flatten(steps[..n]) + steps[n].commands, steps[n].crash);
    }
  }

  /** Every globbed path lies under the version's directory, so it contains the version. */
  predicate Globbed(version: string, files: seq<Dockerfile>) {
    forall i :: 0 <= i < |files| ==> Contains(files[i].path, version)
  }

  /** One step per found file, in glob order. */
  function FileSteps(version: string, files: seq<Dockerfile>): (steps: seq<Plan>)
    requires Globbed(version, files)
    ensures |steps| == |files|
  {
    seq(|files|, i requires 0 <= i < |files| => FileStep(version, files[i]))
  }

  /** The inner loop of build.rb over one version's Dockerfiles. */
  function VersionPlan(version: string, files: seq<Dockerfile>): Plan
    requires Globbed(version, files)
  {
    Sequence(FileSteps(version, files))
  }

  predicate AllGlobbed(versions: seq<string>, globs: seq<seq<Dockerfile>>) {
    |versions| == |globs| && forall k :: 0 <= k < |versions| ==> Globbed(versions[k], globs[k])
  }

  /** One step per version, in the configured order. */
  function VersionSteps(versions: seq<string>, globs: seq<seq<Dockerfile>>): (steps: seq<Plan>)
    requires AllGlobbed(versions, globs)
    ensures |steps| == |versions|
  {
    seq(|versions|, k requires 0 <= k < |versions| => VersionPlan(versions[k], globs[k]))
  }

  /** The outer loop of build.rb over the versions. */
  function BuildPlan(versions: seq<string>, globs: seq<seq<Dockerfile>>): Plan
    requires AllGlobbed(versions, globs)
  {
    Sequence(VersionSteps(versions, globs))
  }

  /**
    Files keep the order they were found in: the plan for `a + b` is the plan
    for `a` followed, unless it crashed, by the plan for `b`.
   */
  lemma VersionPlanAppend(version: string, a: seq<Dockerfile>, b: seq<Dockerfile>)
    requires Globbed(version, a) && Globbed(version, b)
    ensures Globbed(version, a + b)
    ensures VersionPlan(version, a + b) == Then(VersionPlan(version, a), VersionPlan(version, b))
  {
    assert Globbed(version, a + b) by {
      forall i | 0 <= i < |a + b| ensures Contains((a + b)[i].path, version) {
        assert (a + b)[i] == if i < |a| then a[i] else b[i - |a|];
      }
    }
    FileStepsAppend(version, a, b);
    SequenceAppend(FileSteps(version, a), FileSteps(version, b));
  }

  lemma FileStepsAppend(version: string, a: seq<Dockerfile>, b: seq<Dockerfile>)
    requires Globbed(version, a) && Globbed(version, b) && Globbed(version, a + b)
    ensures FileSteps(version, a + b) == FileSteps(version, a) + FileSteps(version, b)
  {
    var l := FileSteps(version, a + b);
    var r := FileSteps(version, a) + FileSteps(version, b);
    forall i | 0 <= i < |l| ensures l[i] == r[i] {
      if i < |a| {
        assert (a + b)[i] == a[i];
      } else {
        assert (a + b)[i] == b[i - |a|];
      }
    }
  }

  /** A file's own plan is its FileStep. */
  lemma VersionPlanSingle(version: string, f: Dockerfile)
    requires Contains(f.path, version)
    ensures Globbed(version, [f]) && VersionPlan(version, [f]) == FileStep(version, f)
  {
    var steps := FileSteps(version, [f]);
    assert steps[..0] == [] && steps[0] == FileStep(version, f);
    assert Sequence(steps) == Then(Sequence([]), FileStep(version, f));
    assert FileStep(version, f).commands == [] + FileStep(version, f).commands;
  }

  /** An excluded Dockerfile contributes no commands, wherever it sits. */
  lemma ExcludedContributesNothing(version: string, a: seq<Dockerfile>, f: Dockerfile, b: seq<Dockerfile>)
    requires Globbed(version, a) && Contains(f.path, version) && Globbed(version, b)
    requires Excluded(f.path)
    ensures Globbed(version, a + [f] + b) && Globbed(version, a + b)
    ensures VersionPlan(version, a + [f] + b) == VersionPlan(version, a + b)
  {
    VersionPlanSingle(version, f);
    VersionPlanAppend(version, a, [f]);
    VersionPlanAppend(version, a + [f], b);
    VersionPlanAppend(version, a, b);
    assert VersionPlan(version, a).commands + [] == VersionPlan(version, a).commands;
  }

  /**
    A kept Dockerfile whose contents carry a version contributes exactly a
    build and a push of the same image reference,
    `callumj/ruby-jemalloc:<full version>-<segment>`, run in its directory.
   */
  lemma KeptFileBuildsThenPushes(version: string, f: Dockerfile)
    requires Contains(f.path, version)
    requires !Excluded(f.path) && ExtractVersion(f.contents).Some?
    ensures Globbed(version, [f])
    ensures var image := Name + ":" + ExtractVersion(f.contents).value + "-" + VariantSegment(f.path, version);
      VersionPlan(version, [f]) ==
        Plan([Command(WorkDir(f.path), "docker build -t " + image + " ."),
              Command(WorkDir(f.path), "docker push " + image)], None)
  {
    VersionPlanSingle(version, f);
  }

  /**
    A kept Dockerfile without an `ENV RUBY_VERSION` line stops the run: the
    commands issued before it stand, and nothing after it is issued.
   */
  lemma MissingVersionStopsRun(version: string, a: seq<Dockerfile>, f: Dockerfile, b: seq<Dockerfile>)
    requires Globbed(version, a) && Contains(f.path, version) && Globbed(version, b)
    requires VersionPlan(version, a).crash.None?
    requires !Excluded(f.path) && ExtractVersion(f.contents).None?
    ensures Globbed(version, a + [f] + b)
    ensures VersionPlan(version, a + [f] + b) == Plan(VersionPlan(version, a).commands, Some(f.path))
  {
    VersionPlanSingle(version, f);
    VersionPlanAppend(version, a, [f]);
    VersionPlanAppend(version, a + [f], b);
    assert VersionPlan(version, a).commands + [] == VersionPlan(version, a).commands;
  }

  /** The file is excluded, or carries a version tag: its step does not crash. */
  predicate Handled(f: Dockerfile) {
    Excluded(f.path) || ExtractVersion(f.contents).Some?
  }

  /** A file's step either crashes on it alone, or issues two commands or none. */
  lemma FileStepShape(version: string, f: Dockerfile)
    requires Contains(f.path, version)
    ensures FileStep(version, f).crash.None? <==> Handled(f)
    ensures FileStep(version, f).crash.Some? ==> FileStep(version, f) == Plan([], Some(f.path))
    ensures FileStep(version, f).crash.None? ==>
      |FileStep(version, f).commands| == if Excluded(f.path) then 0 else 2
  {
  }

  /** Number of found files that survive the exclusion filter. */
  function KeptCount(files: seq<Dockerfile>): nat {
    if files == [] then 0
    else KeptCount(files[..|files| - 1]) + if Excluded(files[|files| - 1].path) then 0 else 1
  }

  /** Two commands per kept file, as long as every kept file is tagged. */
  lemma {:induction false} FlattenLength(version: string, files: seq<Dockerfile>)
    requires Globbed(version, files)
    requires forall i :: 0 <= i < |files| ==> Handled(files[i])
    ensures |Flatten(FileSteps(version, files))| == 2 * KeptCount(files)
    decreases |files|
  {
    if files != [] {
      var n := |files| - 1;
      var init := files[..n];
      FileStepsPrefix(version, files, n);
      FlattenLength(version, init);
      FileStepShape(version, files[n]);
      assert FileSteps(version, files)[n] == FileStep(version, files[n]);
    }
  }

  /**
    A version's run completes exactly when every kept file carries a version
    tag, and it then issues two commands per kept file.
   */
  lemma VersionPlanComplete(version: string, files: seq<Dockerfile>)
    requires Globbed(version, files)
    ensures VersionPlan(version, files).crash.None? <==> forall i :: 0 <= i < |files| ==> Handled(files[i])
    ensures VersionPlan(version, files).crash.None? ==> |VersionPlan(version, files).commands| == 2 * KeptCount(files)
  {
    var steps := FileSteps(version, files);
    SequenceComplete(steps);
    forall i | 0 <= i < |files| ensures steps[i].crash.None? <==> Handled(files[i]) {
      FileStepShape(version, files[i]);
    }
    if forall i :: 0 <= i < |files| ==> Handled(files[i]) {
      FlattenLength(version, files);
    }
  }

  /** Files whose steps did not crash are tagged. */
  lemma CompletedStepsHandled(version: string, files: seq<Dockerfile>, n: nat)
    requires Globbed(version, files) && n <= |files|
    requires forall j :: 0 <= j < n ==> FileSteps(version, files)[j].crash.None?
    ensures forall j :: 0 <= j < n ==> Handled(files[j])
  {
    forall j | 0 <= j < n ensures Handled(files[j]) {
      assert FileSteps(version, files)[j] == FileStep(version, files[j]);
      FileStepShape(version, files[j]);
    }
  }

  /**
    When the run dies, it dies on the first kept file without a version tag,
    after issuing exactly the commands for the files before it.
   */
  lemma CrashIsFirstUntagged(version: string, files: seq<Dockerfile>)
    requires Globbed(version, files)
    requires VersionPlan(version, files).crash.Some?
    ensures exists i :: (0 <= i < |files| && !Handled(files[i]) &&
      (forall j :: 0 <= j < i ==> Handled(files[j])) &&
      VersionPlan(version, files).crash == Some(files[i].path) &&
      |VersionPlan(version, files).commands| == 2 * KeptCount(files[..i]))
  {
    var steps := FileSteps(version, files);
    SequenceCrash(steps);
    var i :| 0 <= i < |steps| && steps[i].crash.Some? &&
      (forall j :: 0 <= j < i ==> steps[j].crash.None?) &&
      Sequence(steps) == Plan(Flatten(steps[..i]) + steps[i].commands, steps[i].crash);
    assert steps[i] == FileStep(version, files[i]);
    FileStepShape(version, files[i]);
    CompletedStepsHandled(version, files, i);
    var init := files[..i];
    FileStepsPrefix(version, files, i);
    FlattenLength(version, init);
    assert |VersionPlan(version, files).commands| == 2 * KeptCount(files[..i]);
  }

  lemma FileStepsPrefix(version: string, files: seq<Dockerfile>, n: nat)
    requires Globbed(version, files) && n <= |files|
    ensures Globbed(version, files[..n])
    ensures FileSteps(version, files)[..n] == FileSteps(version, files[..n])
    ensures forall j :: 0 <= j < n ==> Handled(files[j]) ==> Handled(files[..n][j])
  {
    assert forall j :: 0 <= j < n ==> files[..n][j] == files[j];
  }

  /** The source's configuration: all of version 2.3's plan comes before version 2.4's. */
  lemma VersionsInOrder(globs: seq<seq<Dockerfile>>)
    requires AllGlobbed(Versions, globs)
    ensures BuildPlan(Versions, globs) == Then(VersionPlan("2.3", globs[0]), VersionPlan("2.4", globs[1]))
  {
    var steps := VersionSteps(Versions, globs);
    assert steps == [VersionPlan("2.3", globs[0])] + [VersionPlan("2.4", globs[1])];
    SequenceAppend([VersionPlan("2.3", globs[0])], [VersionPlan("2.4", globs[1])]);
    assert [VersionPlan("2.3", globs[0])][..0] == [] && [VersionPlan("2.4", globs[1])][..0] == [];
    assert VersionPlan("2.3", globs[0]).commands == [] + VersionPlan("2.3", globs[0]).commands;
    assert VersionPlan("2.4", globs[1]).commands == [] + VersionPlan("2.4", globs[1]).commands;
  }

  /**
    The inner loop of build.rb: for each found file of one version, skip it,
    or build and push its image, or die on a missing version tag. Commands
    are appended to those already issued.
   */
  method RunVersion(version: string, files: seq<Dockerfile>, issued: seq<Command>)
    returns (commands: seq<Command>, crash: Option<string>)
    requires Globbed(version, files)
    ensures Plan(commands, crash) == Then(Plan(issued, None), VersionPlan(version, files))
  {
    ghost var steps := FileSteps(version, files);
    commands, crash := issued, None;
    var i := 0;
    while i < |files| && crash.None?
      invariant 0 <= i <= |files|
      invariant Plan(commands, crash) == Then(Plan(issued, None), Sequence(steps[..i]))
    {
      var f := files[i];
      assert steps[..i + 1][..i] == steps[..i] && steps[i] == FileStep(version, f);
      ThenAssociative(Plan(issued, None), Sequence(steps[..i]), steps[i]);
      if !Excluded(f.path) {
        var tag := ExtractVersion(f.contents);
        if tag.None? {
          crash := Some(f.path);
        } else {
          var image := ImageName(tag.value, VariantSegment(f.path, version));
          commands := commands + BuildAndPush(WorkDir(f.path), image);
        }
      }
      i := i + 1;
    }
    SequenceAppend(steps[..i], steps[i..]);
    assert steps[..i] + steps[i..] == steps;
  }

  /** The outer loop of build.rb over the configured versions. */
  method Run(versions: seq<string>, globs: seq<seq<Dockerfile>>) returns (commands: seq<Command>, crash: Option<string>)
    requires AllGlobbed(versions, globs)
    ensures Plan(commands, crash) == BuildPlan(versions, globs)
  {
    ghost var steps := VersionSteps(versions, globs);
    commands, crash := [], None;
    var v := 0;
    while v < |versions| && crash.None?
      invariant 0 <= v <= |versions|
      invariant Plan(commands, crash) == Sequence(steps[..v])
    {
      assert steps[..v + 1][..v] == steps[..v] && steps[v] == VersionPlan(versions[v], globs[v]);
      commands, crash := RunVersion(versions[v], globs[v], commands);
      v := v + 1;
    }
    SequenceAppend(steps[..v], steps[v..]);
    assert steps[..v] + steps[v..] == steps;
  }
}
